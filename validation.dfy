/**
 * The field checks that `validatePost` and `validateblog` apply, and the
 * messages they record. Strings are sequences of characters, so a length is
 * a count of characters.
 */
module Validation {
  import opened Results

  const TitleRequired := "Title is required"
  const ContentRequired := "Content is required"
  const AuthorRequired := "Author is required"

  /** The minimum length of a title and of a content. */
  const MinLength: nat := 3

  /** `value` passes `!value || value.length < n`: it is present and at least `n` characters long. */
  predicate LongEnough(value: Option<string>, n: nat) {
    value.Some? && |value.value| >= n
  }

  /** `value` is truthy: present and not the empty string. */
  predicate Present(value: Option<string>) {
    value.Some? && value.value != ""
  }
}
