/**
  The table the program shows: a header row, then one row per extracted
  keybinding in file order, holding its description, its modifiers joined
  with ", " and its key. Widget styling and the terminal loop are not part
  of this model; a row is the triple of cell texts.
 */
module Display {
  import opened Optional
  import opened GoStrings
  import opened LinePattern
  import opened Resolver
  import opened Config

  datatype Row = Row(command: string, modifier: string, key: string)

  const Header: Row := Row("Command", "Modifier", "Key")

  /** The cells of the row of one keybinding. */
  function RowFor(kb: KeyBind): Row
  {
    Row(GetDescription(kb.command, kb.value), Join(kb.modifier, ", "), kb.key)
  }

  /**
    Fills the table: row 0 is the header and row i + 1 shows the i-th
    keybinding, in order.
   */
  method FillTable(keybinds: seq<KeyBind>) returns (table: seq<Row>)
    ensures |table| == |keybinds| + 1
    ensures table[0] == Header
    ensures forall i :: 0 <= i < |keybinds| ==> table[i + 1] == RowFor(keybinds[i])
  {
    var cells := new Row[|keybinds| + 1];
    cells[0] := Header;
    for i := 0 to |keybinds|
      invariant cells[0] == Header
      invariant forall j :: 0 <= j < i ==> cells[j + 1] == RowFor(keybinds[j])
    {
      cells[i + 1] := RowFor(keybinds[i]);
    }
    table := cells[..];
  }

  /**
    The whole pipeline from configuration lines to table: the rows after the
    header are exactly the rows of the lines that match, in order.
   */
  method KeybindTable(lines: seq<string>) returns (table: seq<Row>)
    ensures |table| == |MatchingLines(lines)| + 1 && |table| <= |lines| + 1
    ensures table[0] == Header
    ensures forall i :: 0 <= i < |MatchingLines(lines)| ==>
      && MatchingLines(lines)[i] < |lines|
      && ExtractLine(lines[MatchingLines(lines)[i]]).Some?
      && table[i + 1] == RowFor(ExtractLine(lines[MatchingLines(lines)[i]]).value)
  {
    var keybinds := ParseConfig(lines);
    ExtractFromMatchingLines(lines);
    table := FillTable(keybinds);
  }

  /** Every element but the first, with one space in front. */
  function PadEach(xs: seq<string>): (r: seq<string>)
    ensures |r| == |xs| && forall i :: 0 <= i < |xs| ==> r[i] == " " + xs[i]
  {
    seq(|xs|, i requires 0 <= i < |xs| => " " + xs[i])
  }

  lemma {:induction false} SpaceAfterComma(a: string, b: string)
    ensures a + ", " + b == a + "," + (" " + b)
  {
    var comma, space := ",", " ";
    assert comma + space == ", ";
    Associate(a, comma, space);
    Associate(a + comma, space, b);
  }

  lemma {:induction false} JoinCommaSpacePadded(xs: seq<string>)
    requires |xs| >= 1
    ensures " " + Join(xs, ", ") == Join(PadEach(xs), ",")
    decreases |xs|
  {
    if |xs| > 1 {
      JoinCommaSpacePadded(xs[1..]);
      assert [xs[0]] + xs[1..] == xs;
      JoinCons(xs[0], xs[1..], ", ");
      assert PadEach(xs) == [" " + xs[0]] + PadEach(xs[1..]);
      JoinCons(" " + xs[0], PadEach(xs[1..]), ",");
      SpaceAfterComma(xs[0], Join(xs[1..], ", "));
      assert " " + (xs[0] + ", " + Join(xs[1..], ", ")) == " " + xs[0] + ", " + Join(xs[1..], ", ");
      SpaceAfterComma(" " + xs[0], Join(xs[1..], ", "));
    }
  }

  /** Joining with ", " is joining with "," after padding all but the first element. */
  lemma {:induction false} JoinCommaSpace(xs: seq<string>)
    requires |xs| >= 1
    ensures Join(xs, ", ") == Join(CommaPieces(xs), ",")
  {
    if |xs| > 1 {
      var rest := xs[1..];
      calc {
        Join(xs, ", ");
        { assert [xs[0]] + rest == xs; JoinCons(xs[0], rest, ", "); }
        xs[0] + ", " + Join(rest, ", ");
        { SpaceAfterComma(xs[0], Join(rest, ", ")); }
        xs[0] + "," + (" " + Join(rest, ", "));
        { JoinCommaSpacePadded(rest); }
        xs[0] + "," + Join(PadEach(rest), ",");
        { JoinCons(xs[0], PadEach(rest), ","); }
        Join([xs[0]] + PadEach(rest), ",");
      }
    } else {
      assert CommaPieces(xs) == [xs[0]];
    }
  }

  /** The pieces a ", "-joined list splits into at its commas. */
  function CommaPieces(mods: seq<string>): (r: seq<string>)
    requires |mods| >= 1
    ensures |r| == |mods| && r[0] == mods[0]
    ensures forall i :: 1 <= i < |mods| ==> r[i] == " " + mods[i]
  {
    [mods[0]] + PadEach(mods[1..])
  }

  lemma {:induction false} CommaPiecesCommaFree(mods: seq<string>)
    requires |mods| >= 1
    requires forall i :: 0 <= i < |mods| ==> ',' !in mods[i]
    ensures forall i :: 0 <= i < |mods| ==> ',' !in CommaPieces(mods)[i]
  {
    var pieces := CommaPieces(mods);
    forall i | 1 <= i < |mods| ensures ',' !in pieces[i] {
      assert pieces[i] == " " + mods[i];
    }
  }

  lemma {:induction false} CommaPiecesTrim(mods: seq<string>)
    requires |mods| >= 1
    requires forall i :: 0 <= i < |mods| ==> Trimmed(mods[i])
    ensures forall i :: 0 <= i < |mods| ==> TrimSpace(CommaPieces(mods)[i]) == mods[i]
  {
    var pieces := CommaPieces(mods);
    forall i | 0 <= i < |mods| ensures TrimSpace(pieces[i]) == mods[i] {
      if i == 0 {
        TrimSpacePadded("", mods[0], "");
        assert "" + mods[0] + "" == pieces[0];
      } else {
        TrimSpacePadded(" ", mods[i], "");
        assert " " + mods[i] + "" == pieces[i];
      }
    }
  }

  /**
    The modifier column loses nothing: split at the commas and trimmed, it
    gives back the modifier list, as long as no modifier holds a comma or
    surrounding white space (which normalisation guarantees).
   */
  lemma {:induction false} ModifierColumnRoundTrip(mods: seq<string>)
    requires |mods| >= 1
    requires forall i :: 0 <= i < |mods| ==> ',' !in mods[i] && Trimmed(mods[i])
    ensures var pieces := Split(Join(mods, ", "), ',');
      |pieces| == |mods| && forall i :: 0 <= i < |mods| ==> TrimSpace(pieces[i]) == mods[i]
  {
    JoinCommaSpace(mods);
    CommaPiecesCommaFree(mods);
    SplitJoin(CommaPieces(mods), ',');
    CommaPiecesTrim(mods);
  }

  /** The modifier column of every extracted keybinding reads back to its list. */
  lemma {:induction false} RowModifiersReadBack(line: string, kb: KeyBind)
    requires ExtractLine(line) == Some(kb)
    ensures var pieces := Split(RowFor(kb).modifier, ',');
      |pieces| == |kb.modifier| && forall i :: 0 <= i < |pieces| ==> TrimSpace(pieces[i]) == kb.modifier[i]
  {
    RecordOfLine(line, kb);
    ModifierColumnRoundTrip(kb.modifier);
  }
}
