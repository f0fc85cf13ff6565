/** `get_first_non_empty` from the showings utilities. */
module Util {

  /** `next((v for v in values if v), "")`: the first non-empty string in
      argument order, or "" when every argument is empty. */
  function FirstNonEmpty(values: seq<string>): (r: string)
    ensures r == "" <==> forall k :: 0 <= k < |values| ==> values[k] == ""
    ensures r != "" ==> exists k :: 0 <= k < |values| && values[k] == r
                                 && forall j :: 0 <= j < k ==> values[j] == ""
  {
    if |values| == 0 then ""
    else if values[0] != "" then values[0]
    else
      var rest := FirstNonEmpty(values[1..]);
      assert forall k :: 1 <= k < |values| ==> values[k] == values[1..][k - 1];
      rest
  }

  /** The result is "" or one of the arguments. */
  lemma FirstNonEmptyIsArgument(values: seq<string>)
    ensures FirstNonEmpty(values) == "" || FirstNonEmpty(values) in values
  {
  }

  /** The first argument wins whenever it is non-empty. */
  lemma FirstNonEmptyPrefersFirst(a: string, b: string)
    ensures a != "" ==> FirstNonEmpty([a, b]) == a
    ensures a == "" ==> FirstNonEmpty([a, b]) == b
  {
    assert [a, b][1..] == [b];
    assert [b][1..] == [];
  }

  /** With exactly one non-empty argument, the order of two arguments does
      not matter. */
  lemma FirstNonEmptySwap(a: string, b: string)
    requires (a == "") != (b == "")
    ensures FirstNonEmpty([a, b]) == FirstNonEmpty([b, a])
  {
    FirstNonEmptyPrefersFirst(a, b);
    FirstNonEmptyPrefersFirst(b, a);
  }

  /** Adding a value at the end only matters when every earlier value is
      empty. */
  lemma {:induction false} FirstNonEmptyAppend(values: seq<string>, v: string)
    ensures FirstNonEmpty(values + [v]) == if FirstNonEmpty(values) != "" then FirstNonEmpty(values) else v
  {
    if |values| > 0 {
      assert (values + [v])[1..] == values[1..] + [v];
      FirstNonEmptyAppend(values[1..], v);
    } else {
      assert [v][1..] == [];
    }
  }
}
