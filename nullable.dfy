/** Nullable columns and JavaScript truthiness of a `string | null`. */
module Nullable {

  datatype Option<T> = None | Some(value: T)

  /** `if (s)` on a `string | null`: neither null nor the empty string. */
  predicate Truthy(s: Option<string>)
  {
    s.Some? && s.value != ""
  }

  /** `s ?? ''`: the text a nullable column shows in an input.  The text
      is non-empty exactly when the column is truthy, and then it is the
      column's value. */
  function OrEmpty(s: Option<string>): (r: string)
    ensures r != "" <==> Truthy(s)
    ensures Truthy(s) ==> s == Some(r)
    ensures s.Some? ==> r == s.value
  {
    if s.Some? then s.value else ""
  }

  /** `s || null` on a string: the empty string becomes null, so no falsy
      string is ever stored, and showing the stored value with `?? ''`
      gives the input's text back. */
  function NullIfEmpty(s: string): (r: Option<string>)
    ensures r.Some? ==> Truthy(r)
    ensures OrEmpty(r) == s
  {
    if s == "" then None else Some(s)
  }

  /** Loading a nullable column into a text field with `?? ''` and saving
      it back with `|| null` keeps the column, except that an empty string
      comes back as null. */
  lemma NullIfEmptyOrEmpty(s: Option<string>)
    ensures NullIfEmpty(OrEmpty(s)) == if s == Some("") then None else s
  {
  }
}
