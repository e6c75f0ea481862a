/**
  The description resolver: the fixed table from LeftWM command identifiers
  to display text, and the rule that turns a command and its value into the
  text of the first column. The table is kept exactly as the program has it,
  including its two slips (`MoveWindowToPreviousWorkspace` and
  `IncreaseMainCount` show the text of a different command).
 */
module Resolver {

  const Descriptions: map<string, string> := map[
    "Execute" := "Execute",
    "CloseWindow" := "Close Window",
    "CloseAllOtherWindows" := "Close All Other Windows",
    "SoftReload" := "Soft Reload",
    "MoveToLastWorkspace" := "Move to Last Workspace",
    "SwapTags" := "Swap Tags",
    "HardReload" := "Hard Reload",
    "ToggleFullScreen" := "Toggle Fullscreen",
    "ToggleMaximized" := "Toggle Maximize",
    "ToggleSticky" := "Toggle Sticky Window",
    "GotoTag" := "Go to tag",
    "ReturnToLastTag" := "Return To Last Tag",
    "FloatingToTile" := "Floating To Tile",
    "TileToFloating" := "Tile to Floating",
    "ToggleFloating" := "Toggle Floating",
    "MoveWindowUp" := "Move Window Up",
    "MoveWindowDown" := "Move Window Down",
    "MoveWindowTop" := "Move Window Top",
    "SwapWindowTop" := "Swap Window Top",
    "FocusWindowUp" := "Focus Window Up",
    "FocusWindowDown" := "Focus Window Down",
    "FocusWindowTop" := "Focus Window Top",
    "FocusWorkspaceNext" := "Focus Workspace Next",
    "FocusWorkspacePrevious" := "Focus Workspace Previous",
    "MoveWindowToNextTag" := "Move Window To Next Tag",
    "MoveWindowToPreviousTag" := "Move Window To Previous Tag",
    "MoveWindowToNextWorkspace" := "Move Window To Next Workspace",
    "MoveWindowToPreviousWorkspace" := "Move Window To Next Workspace",
    "NextLayout" := "Next Layout",
    "PreviousLayout" := "Previous Layout",
    "IncreaseMainSize" := "Increase Main Size",
    "DecreaseMainSize" := "Decrease Main Size",
    "IncreaseMainCount" := "Decrease Main Count",
    "DecreaseMainCount" := "Decrease Main Count",
    "UnloadTheme" := "Unload Theme"
  ]

  /** The commands whose description is a fixed prefix followed by the value. */
  const Interpolated: set<string> := {"MoveToTag", "GotoTag", "Execute"}

  /**
    The description of a keybinding. Interpolation comes first, then the
    table, then the identifier itself; every pair of strings has one.
   */
  function GetDescription(command: string, value: string): (r: string)
    ensures command == "MoveToTag" ==> r == "Move to Tag " + value
    ensures command == "GotoTag" ==> r == "Go to Tag " + value
    ensures command == "Execute" ==> r == "Execute " + value
    ensures command !in Interpolated && command in Descriptions ==> r == Descriptions[command]
    ensures command !in Interpolated && command !in Descriptions ==> r == command
  {
    if command == "MoveToTag" then "Move to Tag " + value
    else if command == "GotoTag" then "Go to Tag " + value
    else if command == "Execute" then "Execute " + value
    else if command in Descriptions then Descriptions[command]
    else command
  }

  /** For an interpolated command, the value can be read back from the description. */
  lemma {:induction false} InterpolatedValueShown(command: string, v: string, w: string)
    requires command in Interpolated
    ensures GetDescription(command, v) == GetDescription(command, w) ==> v == w
  {
    var prefix := GetDescription(command, "");
    assert prefix + "" == prefix;
    assert GetDescription(command, v) == prefix + v && GetDescription(command, w) == prefix + w;
    if prefix + v == prefix + w {
      assert v == (prefix + v)[|prefix|..];
      assert w == (prefix + w)[|prefix|..];
    }
  }

  /** For any other command, the value does not change the description. */
  lemma {:induction false} OtherValueIgnored(command: string, v: string, w: string)
    requires command !in Interpolated
    ensures GetDescription(command, v) == GetDescription(command, w)
  {
    assert command != "MoveToTag" && command != "GotoTag" && command != "Execute";
  }

  /**
    The value shows in the description exactly for the interpolated
    commands: there two values give the same text only if they are equal,
    elsewhere the value never changes the text.
   */
  lemma {:induction false} ValueShownExactlyWhenInterpolated(command: string, v: string, w: string)
    ensures GetDescription(command, v) == GetDescription(command, w) <==>
      (v == w || command !in Interpolated)
  {
    if command in Interpolated {
      InterpolatedValueShown(command, v, w);
    } else {
      OtherValueIgnored(command, v, w);
    }
  }

  /**
    The table entries of `GotoTag` and `Execute` are never shown:
    interpolation wins over the table whatever the value is.
   */
  lemma {:induction false} ShadowedEntries(value: string)
    ensures "GotoTag" in Descriptions && GetDescription("GotoTag", value) != Descriptions["GotoTag"]
    ensures "Execute" in Descriptions && GetDescription("Execute", value) != Descriptions["Execute"]
  {
  }

  /** A non-empty identifier never gets an empty description. */
  lemma {:induction false} DescriptionNonEmpty(command: string, value: string)
    requires command != []
    ensures GetDescription(command, value) != []
  {
  }

  /** The table is kept as written, slips included. */
  lemma {:induction false} TableSlipsKept(value: string)
    ensures GetDescription("MoveWindowToPreviousWorkspace", value) == "Move Window To Next Workspace"
    ensures GetDescription("IncreaseMainCount", value) == "Decrease Main Count"
    ensures GetDescription("GotoTag", "") == "Go to Tag "
  {
  }
}
