/**
  Worked examples: configuration lines in the form LeftWM writes its
  keybindings, followed through extraction and into their table row.
 */
module Scenarios {
  import opened Optional
  import opened GoStrings
  import opened LinePattern
  import opened Resolver
  import opened Config
  import opened Display

  /**
    A line written from well-formed, quote-free captures gives exactly the
    record of those captures, with the normalised modifier list.
   */
  lemma {:induction false} LineGives(c: Captures, mods: seq<string>)
    requires Fits(c)
    requires NormalizeModifiers(c.modifier) == mods
    ensures ExtractLine(Template(c)) == Some(KeyBind(c.command, c.value, mods, c.key))
  {
    RoundTrip(c);
  }

  /** The captures the pattern finds on a line, if they are fit to be written back. */
  predicate Fits(c: Captures)
  {
    WellFormed(c) && '"' !in c.value && '"' !in c.key
  }

  lemma {:induction false} ExecuteFits()
    ensures Fits(Captures("Execute", "rofi -show drun", Quoted("modkey"), "space"))
  {
    assert IsWord("Execute");
  }

  lemma {:induction false} GotoTagFits()
    ensures Fits(Captures("GotoTag", "1", Quoted("modkey") + "," + Quoted("Shift"), "1"))
  {
    assert IsWord("GotoTag");
  }

  lemma {:induction false} ToggleFullScreenFits()
    ensures Fits(Captures("ToggleFullScreen", "", Quoted("modkey"), "f"))
  {
    assert IsWord("ToggleFullScreen");
  }

  lemma {:induction false} UnknownCmdFits()
    ensures Fits(Captures("UnknownCmd", "", "", "x"))
  {
    assert IsWord("UnknownCmd");
  }

  /** A modifier list of quoted names normalises to the names. */
  lemma {:induction false} QuotedList(raw: string, names: seq<string>)
    requires |names| >= 1
    requires forall i :: 0 <= i < |names| ==> '"' !in names[i] && ',' !in names[i] && Trimmed(names[i])
    requires raw == Join(seq(|names|, i requires 0 <= i < |names| => Quoted(names[i])), ",")
    ensures NormalizeModifiers(raw) == names
  {
    QuotedModifiersRoundTrip(names);
  }

  lemma {:induction false} InterpolatedDescriptions()
    ensures GetDescription("Execute", "rofi -show drun") == "Execute rofi -show drun"
    ensures GetDescription("GotoTag", "1") == "Go to Tag 1"
  {
  }

  lemma {:induction false} TableDescription()
    ensures GetDescription("ToggleFullScreen", "") == "Toggle Fullscreen"
  {
  }

  lemma {:induction false} FallbackDescription()
    ensures GetDescription("UnknownCmd", "") == "UnknownCmd"
  {
  }

  /** A configuration line as written: the pattern's literal text around the four fields. */
  function Line(command: string, value: string, modifier: string, key: string): (line: string)
    ensures line == Template(Captures(command, value, modifier, key))
  {
    assert Template(Captures(command, value, modifier, key))
      == CommandOpen + command + ValueOpen + value + ModifierOpen + modifier + KeyOpen + key + Close;
    CommandOpen + command + ValueOpen + value + ModifierOpen + modifier + KeyOpen + key + Close
  }

  /**
    A launcher binding, `(command: Execute, value: "rofi -show drun",
    modifier: ["modkey"], key: "space")`: the value is shown after "Execute ".
   */
  lemma {:induction false} ExecuteLine()
    ensures var line := Line("Execute", "rofi -show drun", Quoted("modkey"), "space");
      ExtractLine(line) == Some(KeyBind("Execute", "rofi -show drun", ["modkey"], "space"))
  {
    var c := Captures("Execute", "rofi -show drun", Quoted("modkey"), "space");
    ExecuteFits();
    QuotedList(c.modifier, ["modkey"]);
    LineGives(c, ["modkey"]);
  }

  /**
    `(command: GotoTag, value: "1", modifier: ["modkey","Shift"], key: "1")`:
    two modifiers are listed in order, joined by ", "; the tag is interpolated.
   */
  lemma {:induction false} GotoTagLine()
    ensures var line := Line("GotoTag", "1", Quoted("modkey") + "," + Quoted("Shift"), "1");
      ExtractLine(line) == Some(KeyBind("GotoTag", "1", ["modkey", "Shift"], "1"))
  {
    var c := Captures("GotoTag", "1", Quoted("modkey") + "," + Quoted("Shift"), "1");
    GotoTagFits();
    var names := ["modkey", "Shift"];
    var quoted := seq(|names|, i requires 0 <= i < |names| => Quoted(names[i]));
    assert quoted == [Quoted("modkey"), Quoted("Shift")];
    assert Join(quoted[1..], ",") == Quoted("Shift");
    QuotedList(c.modifier, names);
    LineGives(c, names);
  }

  /**
    `(command: ToggleFullScreen, value: "", modifier: ["modkey"], key: "f")`:
    the description comes from the table.
   */
  lemma {:induction false} ToggleFullScreenLine()
    ensures var line := Line("ToggleFullScreen", "", Quoted("modkey"), "f");
      ExtractLine(line) == Some(KeyBind("ToggleFullScreen", "", ["modkey"], "f"))
  {
    var c := Captures("ToggleFullScreen", "", Quoted("modkey"), "f");
    ToggleFullScreenFits();
    QuotedList(c.modifier, ["modkey"]);
    LineGives(c, ["modkey"]);
  }

  /**
    `(command: UnknownCmd, value: "", modifier: [], key: "x")`: the identifier
    itself is the description and the list holds one empty modifier.
   */
  lemma {:induction false} UnknownCommandLine()
    ensures var line := Line("UnknownCmd", "", "", "x");
      ExtractLine(line) == Some(KeyBind("UnknownCmd", "", [""], "x"))
  {
    var c := Captures("UnknownCmd", "", "", "x");
    UnknownCmdFits();
    EmptyModifierList();
    LineGives(c, [""]);
  }

  /**
    A line cut short before its closing `")`, here `(command: Execute,
    value: "alacritty", modifier: ["modkey"], key: "Return`, gives no record,
    and the lines around it are read as if it were absent.
   */
  lemma {:induction false} UnclosedLineSkipped(before: seq<string>, after: seq<string>)
    ensures var line := CommandOpen + "Execute" + ValueOpen + "alacritty" + ModifierOpen + Quoted("modkey") + KeyOpen + "Return";
      Extract(before + [line] + after) == Extract(before) + Extract(after)
  {
    var line := CommandOpen + "Execute" + ValueOpen + "alacritty" + ModifierOpen + Quoted("modkey") + KeyOpen + "Return";
    assert ')' !in CommandOpen && ')' !in ValueOpen && ')' !in ModifierOpen && ')' !in KeyOpen;
    assert ')' !in "Execute" && ')' !in "alacritty" && ')' !in Quoted("modkey") && ')' !in "Return";
    NoCloseNoRecord(line);
    SkippedLineKeepsScanning(before, line, after);
  }

  /** The rows of the keybindings above, as the table shows them. */
  lemma {:induction false} ScenarioRows()
    ensures RowFor(KeyBind("Execute", "rofi -show drun", ["modkey"], "space")) == Row("Execute rofi -show drun", "modkey", "space")
    ensures RowFor(KeyBind("GotoTag", "1", ["modkey", "Shift"], "1")) == Row("Go to Tag 1", "modkey, Shift", "1")
    ensures RowFor(KeyBind("ToggleFullScreen", "", ["modkey"], "f")) == Row("Toggle Fullscreen", "modkey", "f")
    ensures RowFor(KeyBind("UnknownCmd", "", [""], "x")) == Row("UnknownCmd", "", "x")
  {
    InterpolatedDescriptions();
    TableDescription();
    FallbackDescription();
    assert Join(["modkey", "Shift"][1..], ", ") == "Shift";
  }
}
