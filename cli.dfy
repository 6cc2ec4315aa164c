/**
 * The pure parts of the command-line helpers (src/pipupgrade/cli/__init__.py):
 * ANSI colour codes, wrapping text in a colour, and the yes/no/quit prompt.
 * Reading the answer from the terminal, printing and exiting are not
 * modelled: the answer is a parameter and quitting is a result.
 */
module Cli {
  import opened Results

  const Escape: char := '\U{1B}'

  /** `_format_ansi(x)`: the escape sequence `ESC [ x m`. */
  function FormatAnsi(x: string): (r: string)
    ensures |r| == |x| + 3
    ensures r[..2] == [Escape, '['] && r[2..|r| - 1] == x && r[|r| - 1] == 'm'
  {
    [Escape, '['] + x + ['m']
  }

  /** The code inside an escape sequence `ESC [ x m`, if `s` is one. */
  function AnsiCode(s: string): (r: Option<string>)
    ensures r.Some? ==> |s| >= 3 && s == FormatAnsi(r.value)
  {
    if |s| >= 3 && s[0] == Escape && s[1] == '[' && s[|s| - 1] == 'm' then
      assert s == [Escape, '['] + s[2..|s| - 1] + ['m'];
      Some(s[2..|s| - 1])
    else None
  }

  /** Reading a code back out of the escape sequence built from it gives the code. */
  lemma AnsiRoundTrip(x: string)
    ensures AnsiCode(FormatAnsi(x)) == Some(x)
  {
  }

  const BOLD: string := FormatAnsi("0;1")
  const RED: string := FormatAnsi("0;91")
  const GREEN: string := FormatAnsi("0;92")
  const YELLOW: string := FormatAnsi("0;93")
  const CYAN: string := FormatAnsi("0;96")
  const CLEAR: string := FormatAnsi("0")

  /** The six colours are six different escape sequences, each with its own code. */
  lemma ColoursAreDistinct()
    ensures AnsiCode(BOLD) == Some("0;1") && AnsiCode(RED) == Some("0;91") && AnsiCode(GREEN) == Some("0;92")
    ensures AnsiCode(YELLOW) == Some("0;93") && AnsiCode(CYAN) == Some("0;96") && AnsiCode(CLEAR) == Some("0")
    ensures |{BOLD, RED, GREEN, YELLOW, CYAN, CLEAR}| == 6
  {
    AnsiRoundTrip("0;1");
    AnsiRoundTrip("0;91");
    AnsiRoundTrip("0;92");
    AnsiRoundTrip("0;93");
    AnsiRoundTrip("0;96");
    AnsiRoundTrip("0");
  }

  /** `format(string, type_)`: the text between the colour and `CLEAR`. */
  function Format(s: string, colour: string): (r: string)
    ensures |r| == |colour| + |s| + |CLEAR|
    ensures r[..|colour|] == colour && r[|colour|..|colour| + |s|] == s && r[|colour| + |s|..] == CLEAR
  {
    colour + s + CLEAR
  }

  /** The text inside `r`, if `r` is `colour`, some text and `CLEAR`. */
  function Unformat(r: string, colour: string): (s: Option<string>)
    ensures s.Some? ==> Format(s.value, colour) == r
  {
    if |r| >= |colour| + |CLEAR| && r[..|colour|] == colour && r[|r| - |CLEAR|..] == CLEAR then
      var s := r[|colour|..|r| - |CLEAR|];
      assert r == r[..|colour|] + s + r[|r| - |CLEAR|..];
      Some(s)
    else None
  }

  lemma FormatRoundTrip(s: string, colour: string)
    ensures Unformat(Format(s, colour), colour) == Some(s)
  {
    var r := Format(s, colour);
    assert r[|colour|..|r| - |CLEAR|] == s;
  }

  /** The answers `confirm` accepts as yes, and as quit. */
  const YesAnswers: seq<string> := ["", "y", "Y"]
  const QuitAnswers: seq<string> := ["q", "Q"]

  /** The text `confirm` shows before reading the answer. */
  function Prompt(query: string, quit: bool): (p: string)
    ensures quit ==> p == query + " [Y/n/q]: "
    ensures !quit ==> p == query + " [Y/n]: "
  {
    var choices := "[Y/n" + (if quit then "/q" else "") + "]";
    query + " " + choices + ": "
  }

  /** The query a prompt was built from. */
  function PromptQuery(p: string, quit: bool): (q: Option<string>)
    ensures q.Some? ==> Prompt(q.value, quit) == p
  {
    var suffix := Prompt("", quit);
    if |p| >= |suffix| && p[|p| - |suffix|..] == suffix then
      assert p == p[..|p| - |suffix|] + suffix;
      Some(p[..|p| - |suffix|])
    else None
  }

  lemma PromptRoundTrip(query: string, quit: bool)
    ensures PromptQuery(Prompt(query, quit), quit) == Some(query)
  {
    var p := Prompt(query, quit);
    var suffix := Prompt("", quit);
    assert p == query + suffix;
    assert p[|p| - |suffix|..] == suffix;
    assert p[..|p| - |suffix|] == query;
  }

  /** What `confirm` does with an answer: return true, return false, or exit. */
  datatype Answer = Yes | No | Quit

  /** `confirm(query, quit_)` once the answer has been read. */
  function Classify(answer: string, quit: bool): (a: Answer)
    ensures a == Quit <==> quit && (answer == "q" || answer == "Q")
    ensures a == Yes <==> answer == "" || answer == "y" || answer == "Y"
    ensures a == No <==> !(answer == "" || answer == "y" || answer == "Y") && !(quit && (answer == "q" || answer == "Q"))
  {
    if quit && answer in QuitAnswers then Quit
    else if answer in YesAnswers then Yes
    else No
  }

  /** Without `quit_`, answering `q` declines rather than exits. */
  lemma QuitNeedsQuitOption()
    ensures Classify("q", false) == No && Classify("Q", false) == No
    ensures Classify("q", true) == Quit && Classify("Q", true) == Quit
  {
  }
}
