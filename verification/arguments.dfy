/** Command-line argument lookup, over an explicit argument list. */
module Arguments {
  import opened Wrappers

  /** `subscript(safe:)`: the element at `i` when `i` is a valid index. */
  function SafeIndex<T>(xs: seq<T>, i: int): (r: Option<T>)
    ensures r.Some? <==> 0 <= i < |xs|
    ensures r.Some? ==> r.value == xs[i]
  {
    if 0 <= i < |xs| then Some(xs[i]) else None
  }

  /** `firstIndex(of:)` */
  function FirstIndex(xs: seq<string>, x: string): (r: Option<nat>)
    ensures r.None? <==> x !in xs
    ensures r.Some? ==> r.value < |xs| && xs[r.value] == x
    ensures r.Some? ==> forall j :: 0 <= j < r.value ==> xs[j] != x
  {
    if |xs| == 0 then None
    else if xs[0] == x then Some(0)
    else
      var rest := FirstIndex(xs[1..], x);
      if rest.None? then None else Some(rest.value + 1)
  }

  /** `getStringArg`: the argument right after the first occurrence of
      `flag`, if there is one. */
  function GetStringArg(args: seq<string>, flag: string): (r: Option<string>)
    ensures flag !in args ==> r.None?
    ensures r.Some? <==> exists i :: 0 <= i < |args| - 1 && args[i] == flag && flag !in args[..i]
    ensures r.Some? ==> exists i :: 0 <= i < |args| - 1 && args[i] == flag && flag !in args[..i]
                                    && r.value == args[i + 1]
  {
    var i := FirstIndex(args, flag);
    if i.None? then None else SafeIndex(args, i.value + 1)
  }

  /** A flag given as the last argument has no value, whatever precedes it,
      as long as it does not occur earlier. */
  lemma FlagLastHasNoValue(args: seq<string>, flag: string)
    requires |args| > 0 && args[|args| - 1] == flag
    requires flag !in args[..|args| - 1]
    ensures GetStringArg(args, flag).None?
  {
    assert forall j :: 0 <= j < |args| - 1 ==> args[j] == args[..|args| - 1][j];
  }

  /** Later occurrences of the flag are ignored: appending arguments after the
      first occurrence's value does not change the answer. */
  lemma {:induction false} LaterOccurrencesIgnored(args: seq<string>, flag: string, more: seq<string>)
    requires GetStringArg(args, flag).Some?
    ensures GetStringArg(args + more, flag) == GetStringArg(args, flag)
  {
    FirstIndexPrefix(args, flag, more);
  }

  lemma {:induction false} FirstIndexPrefix(args: seq<string>, flag: string, more: seq<string>)
    requires flag in args
    ensures FirstIndex(args + more, flag) == FirstIndex(args, flag)
  {
    if args[0] != flag {
      assert (args + more)[1..] == args[1..] + more;
      FirstIndexPrefix(args[1..], flag, more);
    }
  }
}
