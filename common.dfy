/** Small shared vocabulary: optional values and the JavaScript string idioms the handlers use. */
module Common {

  /** A value that may be absent (`undefined` or `null` in the source). */
  datatype Option<+T> = None | Some(value: T)

  /** JavaScript truthiness of an optional string: absent and empty are both falsy. */
  predicate Truthy(s: Option<string>)
  {
    s.Some? && s.value != ""
  }

  /** `s || fallback` for an optional string. */
  function Or(s: Option<string>, fallback: string): string
  {
    if Truthy(s) then s.value else fallback
  }

  /** `xs.join(sep)`: the elements with `sep` between neighbours. */
  function Join(xs: seq<string>, sep: string): string
  {
    if |xs| == 0 then ""
    else if |xs| == 1 then xs[0]
    else xs[0] + sep + Join(xs[1..], sep)
  }

  /** With a non-empty separator, a join is empty exactly when it joins nothing or one empty string. */
  lemma JoinIsEmpty(xs: seq<string>, sep: string)
    requires sep != ""
    ensures Join(xs, sep) == "" <==> |xs| == 0 || (|xs| == 1 && xs[0] == "")
  {
    if |xs| >= 2 {
      assert |Join(xs, sep)| >= |sep|;
    }
  }

  /** The text of a violation list with a fallback for the empty join: `xs.join(', ') || fallback`. */
  function JoinedOr(xs: seq<string>, fallback: string): (r: string)
    requires fallback != ""
    ensures r != ""
    ensures (|xs| == 0 || (|xs| == 1 && xs[0] == "")) ==> r == fallback
    ensures |xs| == 1 && xs[0] != "" ==> r == xs[0]
    ensures |xs| >= 2 ==> r == Join(xs, ", ")
  {
    JoinIsEmpty(xs, ", ");
    Or(Some(Join(xs, ", ")), fallback)
  }
}
