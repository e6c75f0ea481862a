/**
  The configuration extractor: every line of the configuration file is
  matched against the keybinding pattern; a matching line gives one
  keybinding record, with its modifier list split on commas and each piece
  freed of quotes and surrounding white space; other lines are skipped.
  Opening and scanning the file are not part of this module: the input is
  the sequence of lines the scanner yields.
 */
module Config {
  import opened Optional
  import opened GoStrings
  import opened LinePattern

  /** One keybinding: the command, its argument, the modifier keys, the key. */
  datatype KeyBind = KeyBind(command: string, value: string, modifier: seq<string>, key: string)

  /** One piece of the modifier list: quotes deleted, then white space trimmed from both ends. */
  function CleanModifier(piece: string): (r: string)
    ensures '"' !in r && Trimmed(r)
    ensures forall ch :: ch in r ==> ch in piece
  {
    TrimSpace(RemoveAll(piece, '"'))
  }

  /**
    The modifier list of a record: one element per comma-separated piece of
    the raw capture, so one more element than there are commas (an empty
    capture gives one empty element). No element holds a quote, a comma or
    surrounding white space, nor a `]` when the capture holds none.
   */
  function NormalizeModifiers(raw: string): (r: seq<string>)
    ensures |r| == Count(raw, ',') + 1
    ensures forall i :: 0 <= i < |r| ==> '"' !in r[i] && ',' !in r[i] && Trimmed(r[i])
    ensures ']' !in raw ==> forall i :: 0 <= i < |r| ==> ']' !in r[i]
  {
    var pieces := Split(raw, ',');
    assert forall i :: 0 <= i < |pieces| ==> forall ch :: ch in pieces[i] ==> ch in raw by {
      JoinSplitPieces(raw, ',');
    }
    seq(|pieces|, i requires 0 <= i < |pieces| => CleanModifier(pieces[i]))
  }

  /** Every rune of a piece of a split is a rune of the split string. */
  lemma {:induction false} JoinSplitPieces(s: string, sep: char)
    ensures forall i :: 0 <= i < |Split(s, sep)| ==> forall ch :: ch in Split(s, sep)[i] ==> ch in s
    decreases |s|
  {
    if s != [] {
      JoinSplitPieces(s[1..], sep);
      var rest := Split(s[1..], sep);
      assert forall ch :: ch in s[1..] ==> ch in s;
      if s[0] != sep {
        assert forall ch :: ch in [s[0]] + rest[0] ==> ch == s[0] || ch in rest[0];
      }
    }
  }

  /** The record a match gives. */
  function Record(c: Captures): KeyBind
  {
    KeyBind(c.command, c.value, NormalizeModifiers(c.modifier), c.key)
  }

  /** The record one line gives, if it matches. */
  function ExtractLine(line: string): Option<KeyBind>
  {
    match Find(line)
    case None => None
    case Some(h) => Some(Record(h.captures))
  }

  /** The values `f` gives for the elements of `xs`, in order, skipping those it gives nothing for. */
  function FilterMap<T>(xs: seq<string>, f: string -> Option<T>): (r: seq<T>)
    ensures |r| <= |xs|
    decreases |xs|
  {
    if xs == [] then []
    else
      var last := match f(xs[|xs| - 1]) case None => [] case Some(v) => [v];
      FilterMap(xs[..|xs| - 1], f) + last
  }

  /** The positions of the elements of `xs` that `f` gives something for, in order. */
  function Positions<T>(xs: seq<string>, f: string -> Option<T>): (r: seq<nat>)
    ensures forall k :: 0 <= k < |r| ==> r[k] < |xs|
    decreases |xs|
  {
    if xs == [] then []
    else
      var rest := Positions(xs[..|xs| - 1], f);
      if f(xs[|xs| - 1]).Some? then rest + [|xs| - 1] else rest
  }

  /** The records of `lines`, in file order. */
  function Extract(lines: seq<string>): seq<KeyBind>
  {
    FilterMap(lines, ExtractLine)
  }

  /**
    parseConfig without the file handling: scan the lines in order, and for
    each that matches append its record, after normalising its modifier
    pieces one by one in place.
   */
  method ParseConfig(lines: seq<string>) returns (keybinds: seq<KeyBind>)
    ensures keybinds == Extract(lines)
  {
    keybinds := [];
    var n := 0;
    while n < |lines|
      invariant 0 <= n <= |lines|
      invariant keybinds == Extract(lines[..n])
    {
      var line := lines[n];
      var matches := Find(line);
      if matches.Some? {
        var c := matches.value.captures;
        var modifierStrings := Split(c.modifier, ',');
        ghost var pieces := modifierStrings;
        var i := 0;
        while i < |modifierStrings|
          invariant 0 <= i <= |modifierStrings| == |pieces|
          invariant forall j :: 0 <= j < i ==> modifierStrings[j] == CleanModifier(pieces[j])
          invariant forall j :: i <= j < |pieces| ==> modifierStrings[j] == pieces[j]
        {
          modifierStrings := modifierStrings[i := TrimSpace(RemoveAll(modifierStrings[i], '"'))];
          i := i + 1;
        }
        assert modifierStrings == NormalizeModifiers(c.modifier);
        keybinds := keybinds + [KeyBind(c.command, c.value, modifierStrings, c.key)];
      }
      assert lines[..n + 1][..n] == lines[..n];
      n := n + 1;
    }
    assert lines[..n] == lines;
  }

  /** A filter-map works element by element: that of a concatenation is the concatenation of those of its parts. */
  lemma {:induction false} FilterMapAppend<T>(a: seq<string>, b: seq<string>, f: string -> Option<T>)
    ensures FilterMap(a + b, f) == FilterMap(a, f) + FilterMap(b, f)
    decreases |b|
  {
    if b == [] {
      assert a + b == a;
    } else {
      var b' := b[..|b| - 1];
      FilterMapAppend(a, b', f);
      assert (a + b)[..|a + b| - 1] == a + b';
      assert (a + b)[|a + b| - 1] == b[|b| - 1];
    }
  }

  /** The positions increase, and an element is among them exactly when `f` gives something for it. */
  lemma {:induction false} PositionsExact<T>(xs: seq<string>, f: string -> Option<T>)
    ensures forall k, l :: 0 <= k < l < |Positions(xs, f)| ==> Positions(xs, f)[k] < Positions(xs, f)[l]
    ensures forall i :: 0 <= i < |xs| ==> (f(xs[i]).Some? <==> i in Positions(xs, f))
    decreases |xs|
  {
    if xs != [] {
      var init := xs[..|xs| - 1];
      PositionsExact(init, f);
      assert forall i :: 0 <= i < |init| ==> init[i] == xs[i];
    }
  }

  /** Element `k` of a filter-map is what `f` gives for the element at the `k`-th position. */
  lemma {:induction false} FilterMapAtPositions<T>(xs: seq<string>, f: string -> Option<T>)
    ensures |FilterMap(xs, f)| == |Positions(xs, f)|
    ensures forall k :: 0 <= k < |FilterMap(xs, f)| ==> f(xs[Positions(xs, f)[k]]) == Some(FilterMap(xs, f)[k])
    decreases |xs|
  {
    if xs != [] {
      var n := |xs| - 1;
      var init := xs[..n];
      FilterMapAtPositions(init, f);
      var r0, p0 := FilterMap(init, f), Positions(init, f);
      assert forall i :: 0 <= i < |init| ==> init[i] == xs[i];
      match f(xs[n])
      case None =>
        assert FilterMap(xs, f) == r0 + [];
        assert Positions(xs, f) == p0;
      case Some(v) =>
        assert FilterMap(xs, f) == r0 + [v];
        assert Positions(xs, f) == p0 + [n];
    }
  }

  /** Extraction works line by line: the records of a concatenation are the records of its parts. */
  lemma {:induction false} ExtractAppend(a: seq<string>, b: seq<string>)
    ensures Extract(a + b) == Extract(a) + Extract(b)
  {
    FilterMapAppend(a, b, ExtractLine);
  }

  /** A single line gives its record if it matches, and nothing otherwise. */
  lemma {:induction false} ExtractOne(line: string)
    ensures Find(line).None? ==> Extract([line]) == []
    ensures Find(line).Some? ==> Extract([line]) == [Record(Find(line).value.captures)]
  {
    assert [line][..0] == [];
  }

  /** The positions of the matching lines. */
  function MatchingLines(lines: seq<string>): seq<nat>
  {
    Positions(lines, ExtractLine)
  }

  /**
    The records are those of the matching lines, one each, in file order and
    with duplicates kept: record `k` is the record of line `MatchingLines[k]`,
    those positions increase, and a line is among them exactly when the
    pattern matches it.
   */
  lemma {:induction false} ExtractFromMatchingLines(lines: seq<string>)
    ensures |Extract(lines)| == |MatchingLines(lines)|
    ensures forall k :: 0 <= k < |Extract(lines)| ==>
      ExtractLine(lines[MatchingLines(lines)[k]]) == Some(Extract(lines)[k])
    ensures forall k, l :: 0 <= k < l < |MatchingLines(lines)| ==>
      MatchingLines(lines)[k] < MatchingLines(lines)[l]
    ensures forall i :: 0 <= i < |lines| ==> (Find(lines[i]).Some? <==> i in MatchingLines(lines))
  {
    FilterMapAtPositions(lines, ExtractLine);
    PositionsExact(lines, ExtractLine);
  }

  /**
    Every record comes from the match Go's regexp reports in its line: its
    command is a non-empty word, its modifiers are clean, and the template
    rebuilt from the captures occurs in the line.
   */
  lemma {:induction false} RecordOfLine(line: string, kb: KeyBind)
    requires ExtractLine(line) == Some(kb)
    ensures kb.command != [] && IsWord(kb.command) && |kb.modifier| >= 1
    ensures forall i :: 0 <= i < |kb.modifier| ==>
      '"' !in kb.modifier[i] && ',' !in kb.modifier[i] && ']' !in kb.modifier[i] && Trimmed(kb.modifier[i])
    ensures exists h ::
      && Reported(line, h) && kb == Record(h.captures)
      && WellFormed(h.captures)
      && h.start + |Template(h.captures)| <= |line|
      && line[h.start..h.start + |Template(h.captures)|] == Template(h.captures)
  {
    FindSpec(line);
    var h := Find(line).value;
    var c := h.captures;
    assert kb == Record(c);
    assert WellFormed(c);
    assert kb.modifier == NormalizeModifiers(c.modifier);
  }

  /** A line the pattern matches nowhere gives no record. */
  lemma {:induction false} NoMatchNoRecord(line: string)
    ensures ExtractLine(line).None? <==> forall q: nat, d :: q <= |line| ==> !AnchoredAt(line[q..], d)
  {
    FindSpec(line);
  }

  /** An empty modifier capture gives one empty modifier, not an empty list. */
  lemma {:induction false} EmptyModifierList()
    ensures NormalizeModifiers("") == [""]
  {
    assert Split("", ',') == [""];
    assert CleanModifier("") == "";
  }

  /** A modifier name as written in the configuration, between quotes. */
  function Quoted(name: string): string
  {
    "\"" + name + "\""
  }

  /** A quoted name with white space around it cleans to the bare name. */
  lemma {:induction false} CleanQuoted(pad: string, name: string, after: string)
    requires AllSpace(pad) && AllSpace(after)
    requires '"' !in name && Trimmed(name)
    ensures CleanModifier(pad + Quoted(name) + after) == name
  {
    assert '"' !in pad && '"' !in after;
    assert pad + Quoted(name) + after == pad + ("\"" + (name + ("\"" + after)));
    RemoveAllAppend(pad, "\"" + (name + ("\"" + after)), '"');
    RemoveAllAppend("\"", name + ("\"" + after), '"');
    RemoveAllAppend(name, "\"" + after, '"');
    RemoveAllAppend("\"", after, '"');
    assert RemoveAll("\"", '"') == "";
    assert RemoveAll(pad + Quoted(name) + after, '"') == pad + name + after;
    TrimSpacePadded(pad, name, after);
  }

  /**
    Round trip of the modifier normalisation: a list of quoted names joined
    by commas gives back the names.
   */
  lemma {:induction false} QuotedModifiersRoundTrip(names: seq<string>)
    requires |names| >= 1
    requires forall i :: 0 <= i < |names| ==> '"' !in names[i] && ',' !in names[i] && Trimmed(names[i])
    ensures NormalizeModifiers(Join(seq(|names|, i requires 0 <= i < |names| => Quoted(names[i])), ",")) == names
  {
    var quoted := seq(|names|, i requires 0 <= i < |names| => Quoted(names[i]));
    forall i | 0 <= i < |quoted| ensures ',' !in quoted[i] {
      assert forall ch :: ch in quoted[i] ==> ch == '"' || ch in names[i];
    }
    SplitJoin(quoted, ',');
    forall i | 0 <= i < |names| ensures CleanModifier(quoted[i]) == names[i] {
      CleanQuoted("", names[i], "");
      assert "" + Quoted(names[i]) + "" == quoted[i];
    }
  }

  /** Every reported match ends with `")`, so a line with a match holds a `)`. */
  lemma {:induction false} HitHoldsClose(line: string)
    ensures Find(line).Some? ==> ')' in line
  {
    if Find(line).Some? {
      FindSpec(line);
      var h := Find(line).value;
      var t := Template(h.captures);
      assert t[|t| - 1] == ')';
      assert line[h.start + |t| - 1] == t[|t| - 1];
    }
  }

  /** A line without a closing parenthesis gives no record. */
  lemma {:induction false} NoCloseNoRecord(line: string)
    requires ')' !in line
    ensures ExtractLine(line).None?
  {
    HitHoldsClose(line);
  }

  /** A line that gives no record is skipped and the lines after it are still read. */
  lemma {:induction false} SkippedLineKeepsScanning(before: seq<string>, line: string, after: seq<string>)
    requires ExtractLine(line).None?
    ensures Extract(before + [line] + after) == Extract(before) + Extract(after)
  {
    var front := before + [line];
    ExtractAppend(front, after);
    ExtractAppend(before, [line]);
    assert Extract([line]) == [] by {
      assert [line][..0] == [];
    }
    assert Extract(front) == Extract(before);
  }
}
