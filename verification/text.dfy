/** Character-sequence helpers with the semantics of the Swift standard
    library calls the generators use: `split(separator:)` (which omits empty
    subsequences), `split(separator:maxSplits: 1)` and
    `trimmingCharacters(in: .whitespaces)`. */
module Text {
  import opened Wrappers

  /** The whitespace set used for trimming; this model takes space and tab. */
  predicate IsSpace(c: char) {
    c == ' ' || c == '\t'
  }

  /** Drops leading whitespace. */
  function TrimStart(s: string): (r: string)
    ensures |r| <= |s| && r == s[|s| - |r|..]
    ensures |r| > 0 ==> !IsSpace(r[0])
    ensures forall i :: 0 <= i < |s| - |r| ==> IsSpace(s[i])
  {
    if |s| > 0 && IsSpace(s[0]) then
      var t := TrimStart(s[1..]);
      assert s[1..][|s| - 1 - |t|..] == s[|s| - |t|..];
      t
    else s
  }

  /** Drops trailing whitespace. */
  function TrimEnd(s: string): (r: string)
    ensures |r| <= |s| && r == s[..|r|]
    ensures |r| > 0 ==> !IsSpace(r[|r| - 1])
    ensures forall i :: |r| <= i < |s| ==> IsSpace(s[i])
  {
    if |s| > 0 && IsSpace(s[|s| - 1]) then TrimEnd(s[..|s| - 1]) else s
  }

  /** Where the trimmed text starts inside `s`. */
  function TrimOffset(s: string): nat
  {
    |s| - |TrimStart(s)|
  }

  /** `trimmingCharacters(in: .whitespaces)`: the longest slice of `s` that
      neither starts nor ends with whitespace, everything cut off being
      whitespace. */
  function Trim(s: string): (r: string)
    ensures |r| <= |s|
    ensures |r| > 0 ==> !IsSpace(r[0]) && !IsSpace(r[|r| - 1])
    ensures var a := TrimOffset(s);
      && a + |r| <= |s| && r == s[a..a + |r|]
      && (forall i :: 0 <= i < a ==> IsSpace(s[i]))
      && (forall i :: a + |r| <= i < |s| ==> IsSpace(s[i]))
  {
    var t := TrimStart(s);
    var r := TrimEnd(t);
    assert r == s[|s| - |t|..|s| - |t| + |r|];
    r
  }

  /** Trimming a string that has no outer whitespace changes nothing. */
  lemma TrimNoop(s: string)
    requires |s| > 0 ==> !IsSpace(s[0]) && !IsSpace(s[|s| - 1])
    ensures Trim(s) == s
  {
  }

  /** `map { $0.trimmingCharacters(in: .whitespaces) }` */
  function TrimAll(ps: seq<string>): (r: seq<string>)
    ensures |r| == |ps|
    ensures forall i :: 0 <= i < |ps| ==> r[i] == Trim(ps[i])
  {
    seq(|ps|, i requires 0 <= i < |ps| => Trim(ps[i]))
  }

  /** Index of the first `c` in `s`, or `|s|` when there is none. */
  function IndexOf(s: string, c: char): (i: nat)
    ensures i <= |s|
    ensures i < |s| ==> s[i] == c
    ensures forall j :: 0 <= j < i ==> s[j] != c
  {
    if |s| == 0 then 0
    else if s[0] == c then 0
    else 1 + IndexOf(s[1..], c)
  }

  /** Number of leading occurrences of `c` in `s`. */
  function Leading(s: string, c: char): (n: nat)
    ensures n <= |s|
    ensures forall j :: 0 <= j < n ==> s[j] == c
    ensures n < |s| ==> s[n] != c
  {
    if |s| > 0 && s[0] == c then 1 + Leading(s[1..], c) else 0
  }

  /** `split(separator: sep)`: the non-empty pieces between occurrences of
      `sep`; empty pieces (doubled, leading or trailing separators) are
      omitted. */
  function SplitAll(s: string, sep: char): (r: seq<string>)
    ensures forall k :: 0 <= k < |r| ==> |r[k]| > 0 && sep !in r[k]
    decreases |s|
  {
    if |s| == 0 then []
    else
      var i := IndexOf(s, sep);
      if i == |s| then [s]
      else if i == 0 then SplitAll(s[1..], sep)
      else [s[..i]] + SplitAll(s[i + 1..], sep)
  }

  /** `split(separator: sep, maxSplits: 1)`: separators in front of the
      first non-empty piece are dropped; at most two pieces come back, the
      first free of `sep`, the second the (non-empty) rest of the line. */
  function SplitFirst(s: string, sep: char): (r: seq<string>)
    ensures |r| <= 2
    ensures forall k :: 0 <= k < |r| ==> |r[k]| > 0
    ensures |r| > 0 ==> sep !in r[0]
    ensures |r| == 0 <==> Leading(s, sep) == |s|
    ensures |r| == 1 ==> s[Leading(s, sep)..] == r[0] || s[Leading(s, sep)..] == r[0] + [sep]
    ensures |r| == 2 ==> s[Leading(s, sep)..] == r[0] + [sep] + r[1]
    decreases |s|
  {
    if |s| == 0 then []
    else
      var i := IndexOf(s, sep);
      if i == |s| then [s]
      else if i == 0 then
        assert s[1..][Leading(s[1..], sep)..] == s[Leading(s, sep)..];
        SplitFirst(s[1..], sep)
      else if i + 1 == |s| then
        assert s == s[..i] + [sep];
        [s[..i]]
      else
        assert s == s[..i] + [sep] + s[i + 1..];
        [s[..i], s[i + 1..]]
  }

  /** Pieces glued back together with `sep` between them. */
  function JoinWith(ps: seq<string>, sep: string): string
  {
    if |ps| == 0 then []
    else if |ps| == 1 then ps[0]
    else ps[0] + sep + JoinWith(ps[1..], sep)
  }

  lemma IndexOfAfter(a: string, b: string, c: char)
    requires c !in a
    ensures IndexOf(a + b, c) == |a| + IndexOf(b, c)
  {
    if |a| > 0 {
      assert (a + b)[1..] == a[1..] + b;
      IndexOfAfter(a[1..], b, c);
    } else {
      assert a + b == b;
    }
  }

  /** A non-empty, separator-free piece followed by the separator splits
      off as the first piece. */
  lemma SplitCons(a: string, rest: string, sep: char)
    requires |a| > 0 && sep !in a
    ensures SplitAll(a + [sep] + rest, sep) == [a] + SplitAll(rest, sep)
  {
    var s := a + [sep] + rest;
    assert s == a + ([sep] + rest);
    IndexOfAfter(a, [sep] + rest, sep);
    assert IndexOf(s, sep) == |a| < |s|;
    assert s[..|a|] == a;
    assert s[|a| + 1..] == rest;
    assert SplitAll(s, sep) == [s[..|a|]] + SplitAll(s[|a| + 1..], sep);
  }

  /** Splitting is the inverse of joining, for pieces that are non-empty
      and free of the separator. */
  lemma {:induction false} SplitJoin(ps: seq<string>, sep: char)
    requires forall k :: 0 <= k < |ps| ==> |ps[k]| > 0 && sep !in ps[k]
    ensures SplitAll(JoinWith(ps, [sep]), sep) == ps
  {
    if |ps| == 1 {
      IndexOfAfter(ps[0], [], sep);
      assert ps[0] + [] == ps[0];
    } else if |ps| > 1 {
      SplitCons(ps[0], JoinWith(ps[1..], [sep]), sep);
      SplitJoin(ps[1..], sep);
      assert ps == [ps[0]] + ps[1..];
    }
  }

  /** A separator-free piece is split into itself; nothing splits into
      nothing. */
  lemma SplitAllOne(s: string, sep: char)
    requires sep !in s
    ensures SplitAll(s, sep) == if |s| == 0 then [] else [s]
  {
    if |s| > 0 {
      assert IndexOf(s, sep) == |s|;
    }
  }

  /** Splitting at one separator and then at the others is splitting at
      all of them: the text on each side splits on its own, empty pieces
      (from doubled, leading or trailing separators) dropped and the rest
      kept in order. */
  lemma {:induction false} SplitAllAppend(a: string, b: string, sep: char)
    ensures SplitAll(a + [sep] + b, sep) == SplitAll(a, sep) + SplitAll(b, sep)
    decreases |a|
  {
    if sep !in a {
      SplitAllFree(a, b, sep);
    } else {
      SplitAllStep(a, sep);
      var j := IndexOf(a, sep);
      SplitAllAppend(a[j + 1..], b, sep);
      if j == 0 {
        SplitAllFront(a, b, sep);
      } else {
        SplitAllInner(a, b, sep, j);
      }
    }
  }

  /** The base of `SplitAllAppend`: a head without the separator is one
      piece, or none when empty. */
  lemma SplitAllFree(a: string, b: string, sep: char)
    requires sep !in a
    ensures SplitAll(a + [sep] + b, sep) == SplitAll(a, sep) + SplitAll(b, sep)
  {
    SplitAllOne(a, sep);
    if |a| == 0 {
      SplitLeading(b, sep);
      assert a + [sep] + b == [sep] + b;
    } else {
      SplitCons(a, b, sep);
    }
  }

  /** A separator in front is dropped. */
  lemma SplitLeading(b: string, sep: char)
    ensures SplitAll([sep] + b, sep) == SplitAll(b, sep)
  {
    var s := [sep] + b;
    assert IndexOf(s, sep) == 0;
    assert s[1..] == b;
  }

  /** Where the separator leads: the step of `SplitAllAppend` that drops it. */
  lemma SplitAllFront(a: string, b: string, sep: char)
    requires |a| > 0 && a[0] == sep
    requires SplitAll(a[1..] + [sep] + b, sep) == SplitAll(a[1..], sep) + SplitAll(b, sep)
    ensures SplitAll(a + [sep] + b, sep) == SplitAll(a, sep) + SplitAll(b, sep)
  {
    var s := a + [sep] + b;
    assert s[0] == sep;
    SplitAllDrop(s, sep);
    SplitAllDrop(a, sep);
    DropAppend(a, [sep], 1);
    DropAppend(a + [sep], b, 1);
  }

  /** Where the first separator of `a` is at `j > 0`: the step of
      `SplitAllAppend` that cuts off the piece before it. */
  lemma SplitAllInner(a: string, b: string, sep: char, j: nat)
    requires 0 < j < |a| && a[j] == sep && sep !in a[..j]
    requires SplitAll(a[j + 1..] + [sep] + b, sep) == SplitAll(a[j + 1..], sep) + SplitAll(b, sep)
    ensures SplitAll(a + [sep] + b, sep) == SplitAll(a, sep) + SplitAll(b, sep)
  {
    var s, h, t := a + [sep] + b, a[..j], a[j + 1..];
    DropAppend(a, [sep], j + 1);
    DropAppend(a + [sep], b, j + 1);
    assert s[j] == sep && s[..j] == h;
    SplitAllCut(s, sep, j);
    SplitAllCut(a, sep, j);
    AppendAssoc([h], SplitAll(t, sep), SplitAll(b, sep));
  }

  /** A separator in front is dropped. */
  lemma SplitAllDrop(s: string, sep: char)
    requires |s| > 0 && s[0] == sep
    ensures SplitAll(s, sep) == SplitAll(s[1..], sep)
  {
    assert IndexOf(s, sep) == 0;
  }

  /** The piece before the first separator, at `j > 0`, is cut off. */
  lemma SplitAllCut(s: string, sep: char, j: nat)
    requires 0 < j < |s| && s[j] == sep && sep !in s[..j]
    ensures SplitAll(s, sep) == [s[..j]] + SplitAll(s[j + 1..], sep)
  {
    IndexOfAfter(s[..j], s[j..], sep);
    assert s == s[..j] + s[j..];
    assert IndexOf(s[j..], sep) == 0;
  }

  /** One step of `SplitAll` on text holding the separator: the piece
      before its first occurrence, if any, then the split of the rest. */
  lemma SplitAllStep(s: string, sep: char)
    requires sep in s
    ensures IndexOf(s, sep) < |s| && sep !in s[..IndexOf(s, sep)]
  {
    var j :| 0 <= j < |s| && s[j] == sep;
    assert IndexOf(s, sep) <= j;
  }

  lemma DropAppend<T>(x: seq<T>, y: seq<T>, j: nat)
    requires j <= |x|
    ensures (x + y)[j..] == x[j..] + y
  {
  }

  lemma AppendAssoc<T>(x: seq<T>, y: seq<T>, z: seq<T>)
    ensures x + (y + z) == x + y + z
  {
  }

  /** A line with a separator-free, non-empty head splits at the separator
      after the head. */
  lemma SplitFirstAt(a: string, b: string, sep: char)
    requires |a| > 0 && |b| > 0 && sep !in a
    ensures SplitFirst(a + [sep] + b, sep) == [a, b]
  {
    var s := a + [sep] + b;
    assert s == a + ([sep] + b);
    IndexOfAfter(a, [sep] + b, sep);
    assert IndexOf(s, sep) == |a|;
    assert s[..|a|] == a;
    assert s[|a| + 1..] == b;
    assert |s| > 0 && |a| != 0 && |a| + 1 != |s|;
    assert SplitFirst(s, sep) == [s[..|a|], s[|a| + 1..]];
  }

  /** `content.split(separator: "\n").map { $0.trimmingCharacters(in: .whitespaces) }`:
      the non-empty raw lines, each trimmed. Whitespace-only raw lines
      survive the split and become empty lines here. */
  function TrimmedLines(content: string): (r: seq<string>)
    ensures |r| == |SplitAll(content, '\n')|
    ensures forall i :: 0 <= i < |r| ==> r[i] == Trim(SplitAll(content, '\n')[i])
    ensures forall i :: 0 <= i < |r| ==> '\n' !in r[i]
    ensures forall i :: 0 <= i < |r| ==> |r[i]| > 0 ==> !IsSpace(r[i][0]) && !IsSpace(r[i][|r[i]| - 1])
  {
    var raw := SplitAll(content, '\n');
    var r := TrimAll(raw);
    assert forall i :: 0 <= i < |r| ==> '\n' !in r[i] by {
      forall i | 0 <= i < |r|
        ensures '\n' !in r[i]
      {
        var a := TrimOffset(raw[i]);
        assert forall j :: 0 <= j < |r[i]| ==> r[i][j] == raw[i][a + j];
      }
    }
    r
  }

  /** Trimming removes one trailing blank after a word with no outer blanks. */
  lemma TrimTrailingBlank(k: string)
    requires |k| > 0 && !IsSpace(k[0]) && !IsSpace(k[|k| - 1])
    ensures Trim(k + " ") == k
  {
    assert TrimStart(k + " ") == k + " ";
    assert (k + " ")[..|k|] == k;
    assert TrimEnd(k + " ") == TrimEnd(k);
  }

  /** Trimming removes one leading blank before a word with no outer blanks. */
  lemma TrimLeadingBlank(k: string)
    requires |k| > 0 && !IsSpace(k[0]) && !IsSpace(k[|k| - 1])
    ensures Trim(" " + k) == k
  {
    assert (" " + k)[1..] == k;
    assert TrimStart(" " + k) == TrimStart(k);
  }

  /** The left piece of a first-separator split never contains the separator. */
  lemma SplitFirstKeyFree(s: string, sep: char)
    requires |SplitFirst(s, sep)| > 0
    ensures sep !in Trim(SplitFirst(s, sep)[0])
  {
    var p := SplitFirst(s, sep)[0];
    var t := Trim(p);
    var a := TrimOffset(p);
    forall j | 0 <= j < |t|
      ensures t[j] != sep
    {
      assert t[j] == p[a + j];
    }
  }

  /** Joining two non-empty runs of pieces puts one separator between them. */
  lemma {:induction false} JoinAppend(ps: seq<string>, qs: seq<string>, sep: string)
    requires |ps| > 0 && |qs| > 0
    ensures JoinWith(ps + qs, sep) == JoinWith(ps, sep) + sep + JoinWith(qs, sep)
  {
    if |ps| > 1 {
      assert (ps + qs)[1..] == ps[1..] + qs;
      JoinAppend(ps[1..], qs, sep);
    } else {
      assert (ps + qs)[1..] == qs;
    }
  }

  /** The rest of `s` after the literal prefix `p`, if `s` starts with it. */
  function StripPrefix(p: string, s: string): (r: Option<string>)
    ensures r.Some? <==> |p| <= |s| && s[..|p|] == p
    ensures r.Some? ==> s == p + r.value
  {
    if |p| <= |s| && s[..|p|] == p then Some(s[|p|..]) else None
  }

  lemma StripPrefixOf(p: string, s: string)
    ensures StripPrefix(p, p + s) == Some(s)
  {
    assert (p + s)[..|p|] == p;
    assert (p + s)[|p|..] == s;
  }

  /** A character found in no piece and not in the separator is not in the
      joined text. */
  lemma {:induction false} JoinWithout(ps: seq<string>, sep: string, c: char)
    requires forall k :: 0 <= k < |ps| ==> c !in ps[k]
    requires c !in sep
    ensures c !in JoinWith(ps, sep)
  {
    if |ps| > 1 {
      JoinWithout(ps[1..], sep, c);
    }
  }

  lemma {:induction false} TrimStartPadded(pre: string, s: string)
    requires forall i :: 0 <= i < |pre| ==> IsSpace(pre[i])
    requires |s| > 0 && !IsSpace(s[0])
    ensures TrimStart(pre + s) == s
  {
    if |pre| > 0 {
      assert (pre + s)[1..] == pre[1..] + s;
      TrimStartPadded(pre[1..], s);
    } else {
      assert pre + s == s;
    }
  }

  lemma {:induction false} TrimEndPadded(s: string, post: string)
    requires forall i :: 0 <= i < |post| ==> IsSpace(post[i])
    requires |s| > 0 && !IsSpace(s[|s| - 1])
    ensures TrimEnd(s + post) == s
  {
    if |post| > 0 {
      var t := s + post;
      assert t[..|t| - 1] == s + post[..|post| - 1];
      TrimEndPadded(s, post[..|post| - 1]);
    } else {
      assert s + post == s;
    }
  }

  /** Trimming removes any blanks in front of a text that has none at its
      ends. */
  lemma TrimLeftPadded(pre: string, k: string)
    requires forall i :: 0 <= i < |pre| ==> IsSpace(pre[i])
    requires |k| > 0 && !IsSpace(k[0]) && !IsSpace(k[|k| - 1])
    ensures Trim(pre + k) == k
  {
    TrimStartPadded(pre, k);
  }

  /** Trimming removes any blanks around a text that has none at its ends. */
  lemma TrimPadded(pre: string, k: string, post: string)
    requires forall i :: 0 <= i < |pre| ==> IsSpace(pre[i])
    requires forall i :: 0 <= i < |post| ==> IsSpace(post[i])
    requires |k| > 0 && !IsSpace(k[0]) && !IsSpace(k[|k| - 1])
    ensures Trim(pre + k + post) == k
  {
    assert pre + k + post == pre + (k + post);
    TrimStartPadded(pre, k + post);
    TrimEndPadded(k, post);
  }
}
