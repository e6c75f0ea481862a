/**
  The part of Go's `strings` package that the keybinding extractor relies on:
  `Split` with a one-rune separator, `ReplaceAll` with an empty replacement
  (here `RemoveAll`), `TrimSpace` and `Join`. Strings are sequences of runes.
 */
module GoStrings {

  /** Number of occurrences of `ch` in `s`. */
  function Count(s: string, ch: char): (n: nat)
    ensures n <= |s|
    ensures n == 0 <==> ch !in s
  {
    if s == [] then 0 else (if s[0] == ch then 1 else 0) + Count(s[1..], ch)
  }

  /**
    strings.Split(s, string(sep)): the pieces of `s` between occurrences of
    `sep`, in order. Splitting the empty string gives one empty piece.
   */
  function Split(s: string, sep: char): (r: seq<string>)
    ensures |r| == Count(s, sep) + 1
    ensures forall i :: 0 <= i < |r| ==> sep !in r[i]
    decreases |s|
  {
    if s == [] then [""]
    else
      var rest := Split(s[1..], sep);
      if s[0] == sep then [""] + rest else [[s[0]] + rest[0]] + rest[1..]
  }

  /** strings.Join(xs, sep): the elements of `xs` with `sep` between neighbours. */
  function Join(xs: seq<string>, sep: string): string
  {
    if xs == [] then "" else if |xs| == 1 then xs[0] else xs[0] + sep + Join(xs[1..], sep)
  }

  /** Joining a list with a first element in front. */
  lemma {:induction false} JoinCons(x: string, xs: seq<string>, sep: string)
    requires |xs| >= 1
    ensures Join([x] + xs, sep) == x + sep + Join(xs, sep)
  {
    assert ([x] + xs)[1..] == xs;
  }

  /** Prepending a rune to the first element prepends it to the join. */
  lemma {:induction false} JoinExtendHead(c: char, xs: seq<string>, sep: string)
    requires |xs| >= 1
    ensures Join([[c] + xs[0]] + xs[1..], sep) == [c] + Join(xs, sep)
  {
    if |xs| == 1 {
      assert [[c] + xs[0]] + xs[1..] == [[c] + xs[0]];
    } else {
      var tail := Join(xs[1..], sep);
      JoinCons([c] + xs[0], xs[1..], sep);
      assert [xs[0]] + xs[1..] == xs;
      JoinCons(xs[0], xs[1..], sep);
      assert [c] + xs[0] + sep + tail == [c] + (xs[0] + sep + tail);
    }
  }

  /** Joining the pieces of a split with the separator gives the original string back. */
  lemma {:induction false} JoinSplit(s: string, sep: char)
    ensures Join(Split(s, sep), [sep]) == s
    decreases |s|
  {
    if s != [] {
      var rest := Split(s[1..], sep);
      JoinSplit(s[1..], sep);
      assert s == [s[0]] + s[1..];
      if s[0] == sep {
        assert Split(s, sep) == [""] + rest;
        JoinCons("", rest, [sep]);
      } else {
        assert Split(s, sep) == [[s[0]] + rest[0]] + rest[1..];
        JoinExtendHead(s[0], rest, [sep]);
      }
    }
  }

  /** A string without the separator splits into itself alone. */
  lemma {:induction false} SplitNoSeparator(s: string, sep: char)
    requires sep !in s
    ensures Split(s, sep) == [s]
    decreases |s|
  {
    if s != [] {
      SplitNoSeparator(s[1..], sep);
      assert s == [s[0]] + s[1..];
    }
  }

  lemma Associate(a: string, b: string, c: string)
    ensures a + (b + c) == a + b + c
  {
  }

  /** One step of a split: a rune other than the separator joins the first piece. */
  lemma {:induction false} SplitCons(c: char, t: string, sep: char)
    requires c != sep
    ensures Split([c] + t, sep) == [[c] + Split(t, sep)[0]] + Split(t, sep)[1..]
  {
    assert ([c] + t)[1..] == t;
  }

  /** Splitting a separator-free head followed by more text extends the first piece. */
  lemma {:induction false} SplitAfterPiece(x: string, rest: string, sep: char)
    requires sep !in x
    ensures Split(x + rest, sep) == [x + Split(rest, sep)[0]] + Split(rest, sep)[1..]
    decreases |x|
  {
    var q := Split(rest, sep);
    if x != [] {
      SplitAfterPiece(x[1..], rest, sep);
      var r := Split(x[1..] + rest, sep);
      assert r[0] == x[1..] + q[0] && r[1..] == q[1..];
      assert x + rest == [x[0]] + (x[1..] + rest);
      SplitCons(x[0], x[1..] + rest, sep);
      var head, tail := [x[0]], x[1..];
      assert head + tail == x;
      Associate(head, tail, q[0]);
    } else {
      assert x + rest == rest && x + q[0] == q[0];
      assert [q[0]] + q[1..] == q;
    }
  }

  /** Splitting a join of separator-free strings gives the strings back. */
  lemma {:induction false} SplitJoin(xs: seq<string>, sep: char)
    requires |xs| >= 1
    requires forall i :: 0 <= i < |xs| ==> sep !in xs[i]
    ensures Split(Join(xs, [sep]), sep) == xs
    decreases |xs|
  {
    if |xs| == 1 {
      SplitNoSeparator(xs[0], sep);
    } else {
      var tail := Join(xs[1..], [sep]);
      SplitJoin(xs[1..], sep);
      assert Join(xs, [sep]) == xs[0] + ([sep] + tail);
      SplitAfterPiece(xs[0], [sep] + tail, sep);
      assert ([sep] + tail)[1..] == tail;
      assert Split([sep] + tail, sep) == [""] + xs[1..];
      assert xs[0] + "" == xs[0];
      assert xs == [xs[0]] + xs[1..];
    }
  }

  /** strings.ReplaceAll(s, string(ch), ""): `s` with every `ch` deleted, the rest in order. */
  function RemoveAll(s: string, ch: char): (r: string)
    ensures ch !in r
    ensures |r| == |s| - Count(s, ch)
    ensures forall c :: c in r ==> c in s
    ensures ch !in s ==> r == s
    decreases |s|
  {
    if s == [] then ""
    else
      var rest := RemoveAll(s[1..], ch);
      if s[0] == ch then rest else [s[0]] + rest
  }

  /** Exactly the occurrences of `ch` are deleted: every other rune keeps its multiplicity. */
  lemma {:induction false} RemoveAllMultiset(s: string, ch: char)
    ensures multiset(RemoveAll(s, ch)) == multiset(s)[ch := 0]
    decreases |s|
  {
    if s != [] {
      RemoveAllMultiset(s[1..], ch);
      assert s == [s[0]] + s[1..];
      assert multiset(s) == multiset{s[0]} + multiset(s[1..]);
    }
  }

  /** Deleting a rune distributes over concatenation, so the order of what is kept is the input's. */
  lemma {:induction false} RemoveAllAppend(a: string, b: string, ch: char)
    ensures RemoveAll(a + b, ch) == RemoveAll(a, ch) + RemoveAll(b, ch)
    decreases |a|
  {
    if a != [] {
      RemoveAllAppend(a[1..], b, ch);
      var s := a + b;
      assert s[0] == a[0];
      assert s[1..] == a[1..] + b;
      var head := if a[0] == ch then "" else [a[0]];
      var ra, rb := RemoveAll(a[1..], ch), RemoveAll(b, ch);
      assert s != [] && s[0] == a[0];
      assert RemoveAll(s, ch) == head + RemoveAll(s[1..], ch);
      assert RemoveAll(s[1..], ch) == ra + rb;
      assert RemoveAll(a, ch) == head + ra;
      assert head + (ra + rb) == (head + ra) + rb;
    } else {
      assert a + b == b;
    }
  }

  /** unicode.IsSpace: the runes that Go's TrimSpace removes. */
  predicate IsSpace(ch: char)
  {
    || ch == ' ' || ch == '\t' || ch == '\n' || ch == '\U{0B}' || ch == '\U{0C}' || ch == '\r'
    || ch == '\U{85}' || ch == '\U{A0}' || ch == '\U{1680}'
    || ('\U{2000}' <= ch <= '\U{200A}')
    || ch == '\U{2028}' || ch == '\U{2029}' || ch == '\U{202F}' || ch == '\U{205F}' || ch == '\U{3000}'
  }

  predicate AllSpace(s: string)
  {
    forall i :: 0 <= i < |s| ==> IsSpace(s[i])
  }

  /** Neither end of `s` is white space. */
  predicate Trimmed(s: string)
  {
    s == [] || (!IsSpace(s[0]) && !IsSpace(s[|s| - 1]))
  }

  /** Length of the longest prefix of `s` whose runes all satisfy `p`. */
  function Span(s: string, p: char -> bool): (n: nat)
    ensures n <= |s|
    ensures forall i :: 0 <= i < n ==> p(s[i])
    ensures n < |s| ==> !p(s[n])
    decreases |s|
  {
    if s != [] && p(s[0]) then 1 + Span(s[1..], p) else 0
  }

  /** A prefix of runes satisfying `p` followed by one that does not (or by nothing) is the span. */
  lemma {:induction false} SpanExact(s: string, p: char -> bool, k: nat)
    requires k <= |s|
    requires forall i :: 0 <= i < k ==> p(s[i])
    requires k < |s| ==> !p(s[k])
    ensures Span(s, p) == k
    decreases |s|
  {
    if k > 0 {
      assert p(s[0]);
      assert forall i :: 0 <= i < k - 1 ==> s[1..][i] == s[i + 1];
      SpanExact(s[1..], p, k - 1);
    }
  }

  /** Length of the longest all-space suffix of `s`. */
  function TrailingSpaces(s: string): (n: nat)
    ensures n <= |s|
    ensures forall i :: |s| - n <= i < |s| ==> IsSpace(s[i])
    ensures n < |s| ==> !IsSpace(s[|s| - 1 - n])
    decreases |s|
  {
    if s != [] && IsSpace(s[|s| - 1]) then
      var init := s[..|s| - 1];
      assert forall i :: 0 <= i < |init| ==> init[i] == s[i];
      1 + TrailingSpaces(init)
    else 0
  }

  /** An all-space suffix preceded by a non-space rune (or by nothing) is the trailing white space. */
  lemma {:induction false} TrailingSpacesExact(s: string, k: nat)
    requires k <= |s|
    requires forall i :: |s| - k <= i < |s| ==> IsSpace(s[i])
    requires k < |s| ==> !IsSpace(s[|s| - 1 - k])
    ensures TrailingSpaces(s) == k
    decreases |s|
  {
    if k > 0 {
      assert IsSpace(s[|s| - 1]);
      var init := s[..|s| - 1];
      assert forall i :: 0 <= i < |init| ==> init[i] == s[i];
      TrailingSpacesExact(init, k - 1);
    }
  }

  /**
    strings.TrimSpace(s): `s` with all leading and trailing white space
    removed; what remains is a contiguous part of `s`.
   */
  function TrimSpace(s: string): (r: string)
    ensures Trimmed(r)
    ensures exists i, j :: 0 <= i <= j <= |s| && r == s[i..j] && AllSpace(s[..i]) && AllSpace(s[j..])
    ensures forall ch :: ch in r ==> ch in s
  {
    var i := Span(s, IsSpace);
    var t := s[i..];
    var n := TrailingSpaces(t);
    var j := |t| - n;
    var r := t[..j];
    assert r == s[i..i + j];
    assert AllSpace(s[..i]) by {
      assert forall k :: 0 <= k < i ==> s[..i][k] == s[k];
    }
    assert s[i + j..] == t[j..];
    assert r != [] ==> r[0] == s[i] && r[|r| - 1] == t[|t| - 1 - n];
    assert forall ch :: ch in r ==> ch in s by {
      assert forall k :: 0 <= k < |r| ==> r[k] == s[i + k];
    }
    r
  }

  /** Trimming removes the padding around an already trimmed string and nothing else. */
  lemma {:induction false} TrimSpacePadded(pad: string, x: string, after: string)
    requires AllSpace(pad) && AllSpace(after) && Trimmed(x)
    ensures TrimSpace(pad + x + after) == x
  {
    var s := pad + x + after;
    if x == [] {
      assert forall k :: 0 <= k < |s| ==> s[k] == if k < |pad| then pad[k] else after[k - |pad|];
      SpanExact(s, IsSpace, |s|);
    } else {
      assert forall k :: 0 <= k < |pad| ==> s[k] == pad[k];
      assert s[|pad|] == x[0];
      SpanExact(s, IsSpace, |pad|);
      var t := s[|pad|..];
      assert t == x + after;
      assert forall k :: |t| - |after| <= k < |t| ==> t[k] == after[k - (|t| - |after|)];
      assert t[|t| - 1 - |after|] == x[|x| - 1];
      TrailingSpacesExact(t, |after|);
      assert t[..|t| - |after|] == x;
    }
  }
}
