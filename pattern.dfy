/**
  The one line pattern of the configuration extractor,

      \(command: (\w+), value: "(.*?)", modifier: \[([^\]]*)\], key: "(.*?)"\)

  written as an explicit matcher with the choice Go's regexp package makes
  when a line admits several matches: the match that starts leftmost, and
  among those the one a backtracking matcher reaches first (the lazy value as
  short as possible, then the lazy key as short as possible). `\w` is the
  ASCII word class and `.` is any rune but a newline.
 */
module LinePattern {
  import opened Optional
  import opened GoStrings

  const CommandOpen: string := "(command: "
  const ValueOpen: string := ", value: \""
  const ModifierOpen: string := "\", modifier: ["
  const KeyOpen: string := "], key: \""
  const Close: string := "\")"

  /** The four capture groups of a match. */
  datatype Captures = Captures(command: string, value: string, modifier: string, key: string)

  /** A match: where it starts in the line, and what it captured. */
  datatype Hit = Hit(start: nat, captures: Captures)

  /** `\w` in Go's regexp: `[0-9A-Za-z_]`. */
  predicate IsWordChar(ch: char)
  {
    ('0' <= ch <= '9') || ('A' <= ch <= 'Z') || ('a' <= ch <= 'z') || ch == '_'
  }

  predicate IsWord(s: string)
  {
    forall i :: 0 <= i < |s| ==> IsWordChar(s[i])
  }

  /** What `.*` can span: no newline. */
  predicate NoNewline(s: string)
  {
    '\n' !in s
  }

  /** The text of the pattern from the closing quote of the value on. */
  function TailText(modifier: string, key: string): string
  {
    ModifierOpen + (modifier + (KeyOpen + (key + Close)))
  }

  /** The text a match with these captures spans. */
  function Template(c: Captures): string
  {
    CommandOpen + (c.command + (ValueOpen + (c.value + TailText(c.modifier, c.key))))
  }

  /** Captures each group of the pattern could have produced. */
  predicate WellFormed(c: Captures)
  {
    && c.command != [] && IsWord(c.command)
    && NoNewline(c.value)
    && ']' !in c.modifier
    && NoNewline(c.key)
  }

  /** The pattern matches at the very start of `s` with captures `c`. */
  predicate AnchoredAt(s: string, c: Captures)
  {
    WellFormed(c) && Template(c) <= s
  }

  /** The tail of the pattern matches at the start of `u` with these two captures. */
  predicate TailFits(u: string, modifier: string, key: string)
  {
    ']' !in modifier && NoNewline(key) && TailText(modifier, key) <= u
  }

  /**
    Among the matches at the start of `s`, `c` is the one Go's regexp
    reports: the value is as short as any, and among matches with that value
    the key is as short as any.
   */
  ghost predicate PreferredAt(s: string, c: Captures)
  {
    && AnchoredAt(s, c)
    && (forall d :: AnchoredAt(s, d) ==> |c.value| <= |d.value|)
    && (forall d :: AnchoredAt(s, d) && d.value == c.value ==> |c.key| <= |d.key|)
  }

  /** The match Go's regexp reports for `line`: the preferred one at the leftmost start that has any. */
  ghost predicate Reported(line: string, h: Hit)
  {
    && h.start <= |line|
    && PreferredAt(line[h.start..], h.captures)
    && forall q: nat, d :: q < h.start ==> !AnchoredAt(line[q..], d)
  }

  /** Concatenation is a prefix of `s` exactly when its parts are, one after the other. */
  lemma {:induction false} PrefixConcat(a: string, b: string, s: string)
    ensures a + b <= s <==> a <= s && b <= s[|a|..]
  {
    if a + b <= s {
      assert s[..|a|] == (a + b)[..|a|];
      assert s[|a|..][..|b|] == s[..|a| + |b|][|a|..];
    }
    if a <= s && b <= s[|a|..] {
      assert s[..|a| + |b|] == s[..|a|] + s[|a|..][..|b|];
    }
  }

  predicate IsNotBracket(ch: char)
  {
    ch != ']'
  }

  /**
    The lazy `.*?` followed by the rest of a pattern, which `accept` decides:
    the least `j` from `i` on such that `x[..j]` holds no newline and the
    rest of the pattern matches at `x[j..]`.
   */
  function LazyEnd(x: string, i: nat, accept: string -> bool): (r: Option<nat>)
    requires i <= |x| && NoNewline(x[..i])
    ensures r.Some? ==> i <= r.value <= |x| && NoNewline(x[..r.value]) && accept(x[r.value..])
    ensures r.Some? ==> forall j :: i <= j < r.value ==> !accept(x[j..])
    ensures r.None? ==> forall j :: i <= j <= |x| && NoNewline(x[..j]) ==> !accept(x[j..])
    decreases |x| - i
  {
    if accept(x[i..]) then Some(i)
    else if i < |x| && x[i] != '\n' then
      assert x[..i + 1] == x[..i] + [x[i]];
      LazyEnd(x, i + 1, accept)
    else
      assert forall j :: i < j <= |x| ==> x[..j][i] == x[i];
      None
  }

  /** What may follow the lazy key: the closing `")`. */
  predicate StartsWithClose(y: string)
  {
    Close <= y
  }

  /** What may follow the lazy value: the rest of the pattern. */
  predicate StartsWithTail(y: string)
  {
    MatchTail(y).Some?
  }

  /** The tail `", modifier: \[([^\]]*)\], key: "(.*?)"\)` matched at the start of `u`. */
  function MatchTail(u: string): Option<(string, string)>
  {
    if !(ModifierOpen <= u) then None
    else
      var w := u[|ModifierOpen|..];
      var n := Span(w, IsNotBracket);
      if !(KeyOpen <= w[n..]) then None
      else
        var x := w[n..][|KeyOpen|..];
        match LazyEnd(x, 0, StartsWithClose)
        case None => None
        case Some(e) => Some((w[..n], x[..e]))
  }

  /** The whole pattern matched at the start of `s`. */
  function MatchAt(s: string): Option<Captures>
  {
    if !(CommandOpen <= s) then None
    else
      var a := s[|CommandOpen|..];
      var n := Span(a, IsWordChar);
      if n == 0 || !(ValueOpen <= a[n..]) then None
      else
        var t := a[n..][|ValueOpen|..];
        match LazyEnd(t, 0, StartsWithTail)
        case None => None
        case Some(e) =>
          var tail := MatchTail(t[e..]).value;
          Some(Captures(a[..n], t[..e], tail.0, tail.1))
  }

  /** The leftmost match starting at `p` or later. */
  function FindFrom(line: string, p: nat): Option<Hit>
    requires p <= |line|
    decreases |line| - p
  {
    match MatchAt(line[p..])
    case Some(c) => Some(Hit(p, c))
    case None => if p < |line| then FindFrom(line, p + 1) else None
  }

  /** regexp.FindStringSubmatch on one line: the reported match, if the line has one. */
  function Find(line: string): Option<Hit>
  {
    FindFrom(line, 0)
  }

  /** A match of the tail is made of the whole bracket-free run and a key followed by the close. */
  lemma {:induction false} TailShape(u: string, m: string, k: string)
    requires TailFits(u, m, k)
    ensures ModifierOpen <= u
    ensures var w := u[|ModifierOpen|..];
      && Span(w, IsNotBracket) == |m| && w[..|m|] == m && KeyOpen <= w[|m|..]
      && var x := w[|m|..][|KeyOpen|..];
         |k| <= |x| && x[..|k|] == k && Close <= x[|k|..]
  {
    var w := u[|ModifierOpen|..];
    PrefixConcat(ModifierOpen, m + (KeyOpen + (k + Close)), u);
    PrefixConcat(m, KeyOpen + (k + Close), w);
    var v := w[|m|..];
    PrefixConcat(KeyOpen, k + Close, v);
    var x := v[|KeyOpen|..];
    PrefixConcat(k, Close, x);
    assert KeyOpen[0] == ']' && v[0] == KeyOpen[0];
    assert forall i :: 0 <= i < |m| ==> w[i] == m[i];
    SpanExact(w, IsNotBracket, |m|);
  }

  /** The tail matcher finds a tail match, and the one with the shortest key. */
  lemma {:induction false} MatchTailSound(u: string)
    requires MatchTail(u).Some?
    ensures TailFits(u, MatchTail(u).value.0, MatchTail(u).value.1)
    ensures forall m, k :: TailFits(u, m, k) ==>
      m == MatchTail(u).value.0 && |MatchTail(u).value.1| <= |k|
  {
    var w := u[|ModifierOpen|..];
    var n := Span(w, IsNotBracket);
    var x := w[n..][|KeyOpen|..];
    var e := LazyEnd(x, 0, StartsWithClose).value;
    var m, k := w[..n], x[..e];
    assert MatchTail(u).value == (m, k);
    PrefixConcat(k, Close, x);
    PrefixConcat(KeyOpen, k + Close, w[n..]);
    PrefixConcat(m, KeyOpen + (k + Close), w);
    PrefixConcat(ModifierOpen, m + (KeyOpen + (k + Close)), u);
    assert forall i :: 0 <= i < n ==> m[i] == w[i];
    forall m', k' | TailFits(u, m', k') ensures m' == m && |k| <= |k'| {
      TailShape(u, m', k');
      assert StartsWithClose(x[|k'|..]);
      assert x[..|k'|] == k';
    }
  }

  /** Whenever the tail can match, the tail matcher succeeds. */
  lemma {:induction false} MatchTailComplete(u: string, m: string, k: string)
    requires TailFits(u, m, k)
    ensures MatchTail(u).Some?
  {
    TailShape(u, m, k);
    var w := u[|ModifierOpen|..];
    var x := w[|m|..][|KeyOpen|..];
    assert StartsWithClose(x[|k|..]);
    assert x[..|k|] == k;
  }

  /** A match at the start of `s` is made of the whole word run, a value, and a tail match. */
  lemma {:induction false} AnchoredShape(s: string, c: Captures)
    requires AnchoredAt(s, c)
    ensures CommandOpen <= s
    ensures var a := s[|CommandOpen|..];
      && Span(a, IsWordChar) == |c.command| && a[..|c.command|] == c.command
      && ValueOpen <= a[|c.command|..]
      && var t := a[|c.command|..][|ValueOpen|..];
         |c.value| <= |t| && t[..|c.value|] == c.value
         && TailFits(t[|c.value|..], c.modifier, c.key)
  {
    var tail := TailText(c.modifier, c.key);
    var a := s[|CommandOpen|..];
    PrefixConcat(CommandOpen, c.command + (ValueOpen + (c.value + tail)), s);
    PrefixConcat(c.command, ValueOpen + (c.value + tail), a);
    var b := a[|c.command|..];
    PrefixConcat(ValueOpen, c.value + tail, b);
    var t := b[|ValueOpen|..];
    PrefixConcat(c.value, tail, t);
    assert ValueOpen[0] == ',' && b[0] == ValueOpen[0];
    assert forall i :: 0 <= i < |c.command| ==> a[i] == c.command[i];
    SpanExact(a, IsWordChar, |c.command|);
  }

  /** The converse of `AnchoredShape`: the pieces in place make up the whole template. */
  lemma {:induction false} AssembleTemplate(s: string, c: Captures)
    requires CommandOpen <= s
    requires var a := s[|CommandOpen|..];
      && |c.command| <= |a| && a[..|c.command|] == c.command
      && ValueOpen <= a[|c.command|..]
      && var t := a[|c.command|..][|ValueOpen|..];
         |c.value| <= |t| && t[..|c.value|] == c.value
         && TailText(c.modifier, c.key) <= t[|c.value|..]
    ensures Template(c) <= s
  {
    var tail := TailText(c.modifier, c.key);
    var a := s[|CommandOpen|..];
    var t := a[|c.command|..][|ValueOpen|..];
    PrefixConcat(c.value, tail, t);
    PrefixConcat(ValueOpen, c.value + tail, a[|c.command|..]);
    PrefixConcat(c.command, ValueOpen + (c.value + tail), a);
    PrefixConcat(CommandOpen, c.command + (ValueOpen + (c.value + tail)), s);
  }

  /** What the anchored matcher returns is a match. */
  lemma {:induction false} MatchAtFits(s: string)
    requires MatchAt(s).Some?
    ensures AnchoredAt(s, MatchAt(s).value)
  {
    var c := MatchAt(s).value;
    var a := s[|CommandOpen|..];
    var n := Span(a, IsWordChar);
    var t := a[n..][|ValueOpen|..];
    var e := LazyEnd(t, 0, StartsWithTail).value;
    assert c.command == a[..n] && c.value == t[..e];
    assert (c.modifier, c.key) == MatchTail(t[e..]).value;
    assert StartsWithTail(t[e..]);
    MatchTailSound(t[e..]);
    AssembleTemplate(s, c);
    assert forall i :: 0 <= i < n ==> c.command[i] == a[i];
    assert IsWord(c.command);
  }

  /** What the anchored matcher returns is the preferred match. */
  lemma {:induction false} MatchAtSound(s: string)
    requires MatchAt(s).Some?
    ensures PreferredAt(s, MatchAt(s).value)
  {
    MatchAtFits(s);
    var c := MatchAt(s).value;
    var a := s[|CommandOpen|..];
    var n := Span(a, IsWordChar);
    var t := a[n..][|ValueOpen|..];
    var e := LazyEnd(t, 0, StartsWithTail).value;
    assert c.value == t[..e];
    assert (c.modifier, c.key) == MatchTail(t[e..]).value;
    MatchTailSound(t[e..]);
    forall d | AnchoredAt(s, d)
      ensures |c.value| <= |d.value|
      ensures d.value == c.value ==> |c.key| <= |d.key|
    {
      AnchoredShape(s, d);
      MatchTailComplete(t[|d.value|..], d.modifier, d.key);
      assert StartsWithTail(t[|d.value|..]);
      assert t[..|d.value|] == d.value;
    }
  }

  /** Whenever the pattern can match at the start of `s`, the anchored matcher succeeds. */
  lemma {:induction false} MatchAtComplete(s: string, d: Captures)
    ensures AnchoredAt(s, d) ==> MatchAt(s).Some?
  {
    if AnchoredAt(s, d) {
      AnchoredShape(s, d);
      var a := s[|CommandOpen|..];
      var t := a[|d.command|..][|ValueOpen|..];
      MatchTailComplete(t[|d.value|..], d.modifier, d.key);
      assert StartsWithTail(t[|d.value|..]);
      assert t[..|d.value|] == d.value;
    }
  }

  /** When the anchored matcher fails, the pattern has no match at the start of `s`. */
  lemma {:induction false} MatchAtNone(s: string)
    requires MatchAt(s).None?
    ensures forall d :: !AnchoredAt(s, d)
  {
    forall d ensures !AnchoredAt(s, d) {
      MatchAtComplete(s, d);
    }
  }

  /** The search from `p` on reports the preferred match at the first start that has a match. */
  lemma {:induction false} FindFromSome(line: string, p: nat)
    requires p <= |line| && FindFrom(line, p).Some?
    ensures p <= FindFrom(line, p).value.start <= |line|
    ensures PreferredAt(line[FindFrom(line, p).value.start..], FindFrom(line, p).value.captures)
    ensures forall q: nat, d :: p <= q < FindFrom(line, p).value.start ==> !AnchoredAt(line[q..], d)
    decreases |line| - p
  {
    var here := MatchAt(line[p..]);
    if here.Some? {
      assert FindFrom(line, p) == Some(Hit(p, here.value));
      MatchAtSound(line[p..]);
    } else {
      assert FindFrom(line, p) == FindFrom(line, p + 1);
      MatchAtNone(line[p..]);
      FindFromSome(line, p + 1);
      var h := FindFrom(line, p).value;
      forall q: nat, d | p <= q < h.start ensures !AnchoredAt(line[q..], d) {
        if q == p {
          assert !AnchoredAt(line[p..], d);
        }
      }
    }
  }

  /** The search from `p` on reports nothing exactly when no start from `p` on has a match. */
  lemma {:induction false} FindFromNone(line: string, p: nat)
    requires p <= |line| && FindFrom(line, p).None?
    ensures forall q: nat, d :: p <= q <= |line| ==> !AnchoredAt(line[q..], d)
    decreases |line| - p
  {
    MatchAtNone(line[p..]);
    if p < |line| {
      FindFromNone(line, p + 1);
    }
  }

  /**
    `Find` reports the match Go's regexp reports, which spans a copy of the
    template of its captures inside the line, and reports nothing exactly
    when no part of the line matches the pattern.
   */
  lemma {:induction false} FindSpec(line: string)
    ensures Find(line).Some? ==>
      var h := Find(line).value;
      && Reported(line, h)
      && WellFormed(h.captures)
      && h.start + |Template(h.captures)| <= |line|
      && line[h.start..h.start + |Template(h.captures)|] == Template(h.captures)
    ensures Find(line).None? <==> forall q: nat, d :: q <= |line| ==> !AnchoredAt(line[q..], d)
  {
    if Find(line).Some? {
      FindSome(line);
    } else {
      FindFromNone(line, 0);
    }
  }

  lemma {:induction false} FindSome(line: string)
    requires Find(line).Some?
    ensures var h := Find(line).value;
      && Reported(line, h)
      && WellFormed(h.captures)
      && AnchoredAt(line[h.start..], h.captures)
      && h.start + |Template(h.captures)| <= |line|
      && line[h.start..h.start + |Template(h.captures)|] == Template(h.captures)
  {
    FindFromSome(line, 0);
    var h := Find(line).value;
    var t := Template(h.captures);
    assert line[h.start..][..|t|] == line[h.start..h.start + |t|];
  }

  /** Two matches at the same start that are both preferred are the same match. */
  lemma {:induction false} PreferredUnique(s: string, c: Captures, d: Captures)
    requires PreferredAt(s, c) && PreferredAt(s, d)
    ensures c == d
  {
    AnchoredShape(s, c);
    AnchoredShape(s, d);
    var a := s[|CommandOpen|..];
    var t := a[|c.command|..][|ValueOpen|..];
    assert c.value == d.value;
    var u := t[|c.value|..];
    TailShape(u, c.modifier, c.key);
    TailShape(u, d.modifier, d.key);
    assert c.modifier == d.modifier;
  }

  /** The reported match of a line is unique: the predicate pins down one answer. */
  lemma {:induction false} ReportedUnique(line: string, h: Hit, g: Hit)
    requires Reported(line, h) && Reported(line, g)
    ensures h == g
  {
    assert h.start == g.start;
    PreferredUnique(line[h.start..], h.captures, g.captures);
  }

  /** Where the tail of any match at the start of `s` begins, there is a quote. */
  lemma {:induction false} ValueEndsAtQuote(s: string, d: Captures)
    requires AnchoredAt(s, d)
    ensures var t := s[|CommandOpen|..][|d.command|..][|ValueOpen|..];
      |d.value| < |t| && t[|d.value|] == '"'
  {
    AnchoredShape(s, d);
    var t := s[|CommandOpen|..][|d.command|..][|ValueOpen|..];
    TailShape(t[|d.value|..], d.modifier, d.key);
    assert ModifierOpen[0] == '"' && t[|d.value|..][0] == ModifierOpen[0];
  }

  /** A value without quotes is no longer than the value of any match at the same start. */
  lemma {:induction false} QuoteFreeValueShortest(s: string, c: Captures, d: Captures)
    requires AnchoredAt(s, c) && AnchoredAt(s, d) && '"' !in c.value
    ensures |c.value| <= |d.value|
  {
    AnchoredShape(s, c);
    AnchoredShape(s, d);
    ValueEndsAtQuote(s, d);
    var t := s[|CommandOpen|..][|c.command|..][|ValueOpen|..];
    forall j | 0 <= j < |c.value| ensures t[j] != '"' {
      assert t[j] == t[..|c.value|][j];
    }
  }

  /** A key without quotes is no longer than the key of any tail match at the same place. */
  lemma {:induction false} QuoteFreeKeyShortestInTail(u: string, m: string, k: string, m': string, k': string)
    requires TailFits(u, m, k) && TailFits(u, m', k') && '"' !in k
    ensures |k| <= |k'|
  {
    TailShape(u, m, k);
    TailShape(u, m', k');
    var x := u[|ModifierOpen|..][|m|..][|KeyOpen|..];
    forall j | 0 <= j < |k| ensures x[j] != '"' {
      assert x[j] == x[..|k|][j];
    }
    assert Close[0] == '"' && x[|k'|..][0] == Close[0];
  }

  /** With the same value, a key without quotes is no longer than the key of any match at the same start. */
  lemma {:induction false} QuoteFreeKeyShortest(s: string, c: Captures, d: Captures)
    requires AnchoredAt(s, c) && AnchoredAt(s, d) && d.value == c.value && '"' !in c.key
    ensures |c.key| <= |d.key|
  {
    AnchoredShape(s, c);
    AnchoredShape(s, d);
    var t := s[|CommandOpen|..][|c.command|..][|ValueOpen|..];
    QuoteFreeKeyShortestInTail(t[|c.value|..], c.modifier, c.key, d.modifier, d.key);
  }

  /**
    When neither lazy group holds a quote, a match at the start of `s` is
    the preferred one: a shorter value or key would have to end at a quote.
   */
  lemma {:induction false} QuoteFreePreferred(s: string, c: Captures)
    requires AnchoredAt(s, c) && '"' !in c.value && '"' !in c.key
    ensures PreferredAt(s, c)
  {
    forall d | AnchoredAt(s, d)
      ensures |c.value| <= |d.value|
      ensures d.value == c.value ==> |c.key| <= |d.key|
    {
      QuoteFreeValueShortest(s, c, d);
      if d.value == c.value {
        QuoteFreeKeyShortest(s, c, d);
      }
    }
  }

  /**
    Round trip: the template of well-formed captures whose value and key hold
    no quote is matched from its first rune, giving back those captures.
   */
  lemma {:induction false} RoundTrip(c: Captures)
    requires WellFormed(c) && '"' !in c.value && '"' !in c.key
    ensures Find(Template(c)) == Some(Hit(0, c))
  {
    var line := Template(c);
    assert line[0..] == line;
    QuoteFreePreferred(line, c);
    FindSpec(line);
    var h := Find(line).value;
    assert h.start == 0;
    ReportedUnique(line, h, Hit(0, c));
  }
}
