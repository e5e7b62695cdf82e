/** `Category`: a named grouping of plans that is soft-deleted and restored
    by flipping a flag, never removed. */
module CategoryDomain {
  import opened Wrappers
  import opened JavaStrings

  const NameEmptyMessage: string := "Category name cannot be null or empty."
  const NameLengthMessage: string := "Category name cannot exceed 50 characters."
  const MaxNameLength: int := 50

  /** `Category.validateName`: null or blank first, then the length limit. */
  function ValidateName(name: Option<string>): Outcome
  {
    if name.None? || IsBlank(name.value) then Fail(IllegalArgument(NameEmptyMessage))
    else if |name.value| > MaxNameLength then Fail(IllegalArgument(NameLengthMessage))
    else Pass
  }

  /** A category name is accepted exactly when it is non-null, not blank and
      at most 50 characters; each rejection carries its own message, and a
      blank name is reported as blank whatever its length. */
  lemma ValidateNameIff(name: Option<string>)
    ensures ValidateName(name).Pass? <==> name.Some? && !IsBlank(name.value) && |name.value| <= MaxNameLength
    ensures name.None? || IsBlank(name.value) ==> ValidateName(name) == Fail(IllegalArgument(NameEmptyMessage))
    ensures name.Some? && !IsBlank(name.value) && |name.value| > MaxNameLength ==>
              ValidateName(name) == Fail(IllegalArgument(NameLengthMessage))
  {
  }

  /** Whitespace-only names are blank, so they are rejected even though they
      are not empty; a 50-character name is the longest accepted. */
  lemma ValidateNameBoundaries()
    ensures ValidateName(Some("   ")) == Fail(IllegalArgument(NameEmptyMessage))
    ensures ValidateName(Some(seq(50, i => 'a'))).Pass?
    ensures ValidateName(Some(seq(51, i => 'a'))) == Fail(IllegalArgument(NameLengthMessage))
  {
    var long := seq(51, i => 'a');
    assert !IsWhitespace(long[0]);
    var limit := seq(50, i => 'a');
    assert !IsWhitespace(limit[0]);
  }

  class Category {
    var name: string
    var deleted: bool

    /** The private constructor, after the name check has passed. */
    constructor (name: string)
      requires ValidateName(Some(name)).Pass?
      ensures this.name == name && !deleted
    {
      this.name := name;
      deleted := false;
    }

    /** `Category.create`: the name check, then a category that is not deleted. */
    static method Create(name: Option<string>) returns (r: Result<Category>)
      ensures ValidateName(name).Fail? ==> r == Failure(ValidateName(name).error)
      ensures ValidateName(name).Pass? ==> r.Success? && fresh(r.value) && r.value.name == name.value
                                           && !r.value.deleted
    {
      var check := ValidateName(name);
      if check.Fail? {
        return Failure(check.error);
      }
      var category := new Category(name.value);
      r := Success(category);
    }

    /** `delete()`: marks the category deleted and keeps its name. */
    method Delete()
      modifies this
      ensures deleted && name == old(name)
    {
      deleted := true;
    }

    /** `restore()`: clears the deleted mark and keeps its name. */
    method Restore()
      modifies this
      ensures !deleted && name == old(name)
    {
      deleted := false;
    }
  }

  /** Deleting twice leaves the category as deleting once does. */
  method DeleteIsIdempotent(category: Category)
    modifies category
    ensures category.deleted && category.name == old(category.name)
  {
    category.Delete();
    ghost var once := category.deleted;
    category.Delete();
    assert category.deleted == once;
  }

  /** Deleting and then restoring a category brings back a live category
      with the same name, whatever its state before. */
  method DeleteThenRestore(category: Category)
    modifies category
    ensures !category.deleted && category.name == old(category.name)
  {
    category.Delete();
    category.Restore();
  }
}
