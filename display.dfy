/**
 * The message builders of the display layer and the rule that decides whether,
 * and how, a block of diagnostic content is shown. The console and its
 * rendering are not modelled: `DisplayContent` returns the rendering it would
 * ask the console for.
 */
module Display {
  import opened Text
  import opened ReportModel

  // ---------------------------------------------------------------------------
  // make_colon_separated_string

  /** The line one dictionary entry contributes, without its newline. */
  function ColonLine(p: Pair): string {
    "- " + p.0 + ": " + p.1
  }

  /** The entry lines of `d`, in insertion order. */
  function ColonLines(d: seq<Pair>): (lines: seq<string>)
    ensures |lines| == |d|
    decreases |d|
  {
    if d == [] then [] else ColonLines(d[..|d| - 1]) + [ColonLine(d[|d| - 1])]
  }

  /** `make_colon_separated_string`: "\n", then one "- key: value\n" per entry, joined with "". */
  function ColonSeparated(d: Dict): (s: string)
    ensures |s| >= 1 && s[0] == '\n'
  {
    "\n" + Concat(seq(|d|, i requires 0 <= i < |d| => ColonLine(d[i]) + "\n"))
  }

  lemma {:induction false} ColonLinesAt(d: seq<Pair>, i: nat)
    requires i < |d|
    ensures ColonLines(d)[i] == ColonLine(d[i])
    decreases |d|
  {
    if i < |d| - 1 {
      ColonLinesAt(d[..|d| - 1], i);
    }
  }

  /** The joined comprehension is the entry lines, each ended by "\n". */
  lemma {:induction false} ColonConcatUnlines(d: seq<Pair>)
    ensures Concat(seq(|d|, i requires 0 <= i < |d| => ColonLine(d[i]) + "\n")) == Unlines(ColonLines(d))
    decreases |d|
  {
    var items := seq(|d|, i requires 0 <= i < |d| => ColonLine(d[i]) + "\n");
    if d != [] {
      var init := d[..|d| - 1];
      var initItems := seq(|init|, i requires 0 <= i < |init| => ColonLine(init[i]) + "\n");
      ColonConcatUnlines(init);
      assert items == initItems + [ColonLine(d[|d| - 1]) + "\n"];
      ConcatAppend(initItems, ColonLine(d[|d| - 1]) + "\n");
      UnlinesAppend(ColonLines(init), ColonLine(d[|d| - 1]));
    }
  }

  /** The string is exactly "\n" when the dictionary is empty, and otherwise longer. */
  lemma ColonSeparatedEmptyIff(d: Dict)
    ensures ColonSeparated(d) == "\n" <==> d == []
  {
    ColonConcatUnlines(d);
    if d != [] {
      var lines := ColonLines(d);
      assert Unlines(lines) == lines[0] + "\n" + Unlines(lines[1..]);
    }
  }

  /** Adding an entry at the end of the dictionary adds its line at the end of the string. */
  lemma ColonSeparatedAppend(d: Dict, p: Pair)
    requires DistinctKeys(d + [p])
    ensures ColonSeparated(d + [p]) == ColonSeparated(d) + ColonLine(p) + "\n"
  {
    var e: Dict := d + [p];
    ColonConcatUnlines(d);
    ColonConcatUnlines(e);
    assert e[..|e| - 1] == d;
    UnlinesAppend(ColonLines(d), ColonLine(p));
  }

  /**
   * Read back line by line, the string is an empty first line followed by one
   * "- key: value" line per entry, in insertion order, as long as no key or value
   * holds a line boundary.
   */
  lemma ColonSeparatedLines(d: Dict)
    requires PairsFree(d)
    ensures |SplitLines(ColonSeparated(d))| == |d| + 1
    ensures SplitLines(ColonSeparated(d))[0] == ""
    ensures forall i :: 0 <= i < |d| ==> SplitLines(ColonSeparated(d))[i + 1] == "- " + d[i].0 + ": " + d[i].1
  {
    var lines := ColonLines(d);
    forall i | 0 <= i < |d| ensures lines[i] == ColonLine(d[i]) {
      ColonLinesAt(d, i);
    }
    forall i | 0 <= i < |lines| ensures NoLineBoundary(lines[i]) {
      var k, v := d[i].0, d[i].1;
      assert forall j :: 0 <= j < |lines[i]| ==>
        lines[i][j] == (if j < 2 then "- "[j] else if j < 2 + |k| then k[j - 2]
                        else if j < 4 + |k| then ": "[j - 2 - |k|] else v[j - 4 - |k|]);
    }
    ColonConcatUnlines(d);
    assert ColonSeparated(d) == Unlines([""] + lines);
    SplitLinesUnlines([""] + lines);
  }

  // ---------------------------------------------------------------------------
  // get_display_return_code, display_advice

  /** The console markup for a passing message (a green check mark) and for a failing one (a red cross). */
  const PassTag := "[green]\U{2714}"
  const FailTag := "[red]\U{2718}"

  const AllPassed := PassTag + " All checks passed."
  const SomeFailed := FailTag + " One or more checks failed."
  const NoAdviceNeeded := PassTag + " Advise requested, but none is needed!"
  const AdviceProvided := FailTag + " Advise requested, and will be provided!"

  /** `text` follows the leading newline of `message`. */
  predicate Carries(message: string, text: string) {
    1 + |text| <= |message| && message[1..1 + |text|] == text
  }

  /** The summary line for a return code: "\n", the passed or failed text, and a newline more in fancy mode. */
  method GetDisplayReturnCode(returnCode: int, fancy: bool) returns (message: string)
    ensures |message| >= 1 && message[0] == '\n'
    ensures Carries(message, AllPassed) <==> returnCode == 0
    ensures Carries(message, SomeFailed) <==> returnCode != 0
    ensures message[|message| - 1] == '\n' <==> fancy
    ensures |message| == 1 + (if returnCode == 0 then |AllPassed| else |SomeFailed|) + (if fancy then 1 else 0)
  {
    message := "\n";
    if returnCode == 0 {
      message := message + AllPassed;
    } else {
      message := message + SomeFailed;
    }
    ghost var text := if returnCode == 0 then AllPassed else SomeFailed;
    assert message == "\n" + text;
    if fancy {
      message := message + "\n";
    }
    assert message == "\n" + text + (if fancy then "\n" else "");
    assert message[1..1 + |text|] == text;
    assert message[2] == text[1];
    assert AllPassed[1] == PassTag[1] && SomeFailed[1] == FailTag[1];
  }

  /** The advice banner: "\n", the no-advice or will-advise text, and always a closing newline. */
  method DisplayAdvice(returnCode: int) returns (message: string)
    ensures |message| >= 2 && message[0] == '\n' && message[|message| - 1] == '\n'
    ensures Carries(message, NoAdviceNeeded) <==> returnCode == 0
    ensures Carries(message, AdviceProvided) <==> returnCode != 0
    ensures |message| == 2 + (if returnCode == 0 then |NoAdviceNeeded| else |AdviceProvided|)
  {
    message := "\n";
    if returnCode == 0 {
      message := message + NoAdviceNeeded;
    } else {
      message := message + AdviceProvided;
    }
    ghost var text := if returnCode == 0 then NoAdviceNeeded else AdviceProvided;
    assert message == "\n" + text;
    message := message + "\n";
    assert message == "\n" + text + "\n";
    assert message[1..1 + |text|] == text;
    assert message[2] == text[1];
    assert NoAdviceNeeded[1] == PassTag[1] && AdviceProvided[1] == FailTag[1];
  }

  // ---------------------------------------------------------------------------
  // display_content

  /** What the console is asked to print for a shown block. */
  datatype Rendering =
    | SyntaxPanel(title: string, code: string, language: string, theme: string)
    | TextPanel(title: string, text: string)
    | LabelThenSyntax(heading: string, code: string, language: string, theme: string)
    | PlainText(text: string)

  /** Whether a block is shown and, if so, whether a blank line precedes it and how it is rendered. */
  datatype Choice = Hidden | Shown(leadingBlank: bool, rendering: Rendering)

  /** The block is shown when report types were requested and they name this type or `all`. */
  predicate Requested<R(==)>(displayReportType: R, reportTypes: Option<seq<R>>, allType: R) {
    reportTypes.Some? && (displayReportType in reportTypes.value || allType in reportTypes.value)
  }

  /** `display_content`: the choice of what to print, with `allType` standing for `ReportType.all`. */
  function DisplayContent<R(==)>(displayReportType: R, reportTypes: Option<seq<R>>, allType: R,
                                 content: string, labelText: string, richtext: bool, syntax: bool,
                                 syntaxTheme: string := "ansi_dark", syntaxLanguage: string := "python",
                                 newline: bool := false): (c: Choice)
    ensures c.Hidden?
            <==> reportTypes.None? || (displayReportType !in reportTypes.value && allType !in reportTypes.value)
    ensures c.Shown? ==> (c.leadingBlank <==> richtext && newline)
    ensures c.Shown? ==> (c.rendering.SyntaxPanel? <==> richtext && syntax)
    ensures c.Shown? ==> (c.rendering.TextPanel? <==> richtext && !syntax)
    ensures c.Shown? ==> (c.rendering.LabelThenSyntax? <==> !richtext && syntax)
    ensures c.Shown? ==> (c.rendering.PlainText? <==> !richtext && !syntax)
    ensures c.Shown? && syntax ==>
      && c.rendering.code == "\n" + content
      && c.rendering.language == syntaxLanguage && c.rendering.theme == syntaxTheme
    ensures c.Shown? && richtext ==> c.rendering.title == labelText
    ensures c.Shown? && !richtext && syntax ==> c.rendering.heading == labelText
    ensures c.Shown? && richtext && !syntax ==> c.rendering.text == content
    ensures c.Shown? && !richtext && !syntax ==> c.rendering.text == labelText + "\n" + content
  {
    if !Requested(displayReportType, reportTypes, allType) then Hidden
    else if richtext then
      if syntax then Shown(newline, SyntaxPanel(labelText, "\n" + content, syntaxLanguage, syntaxTheme))
      else Shown(newline, TextPanel(labelText, content))
    else if syntax then Shown(false, LabelThenSyntax(labelText, "\n" + content, syntaxLanguage, syntaxTheme))
    else Shown(false, PlainText(labelText + "\n" + content))
  }

  /** In plain mode the newline flag changes nothing. */
  lemma NewlineIgnoredInPlainMode<R>(displayReportType: R, reportTypes: Option<seq<R>>, allType: R,
                                         content: string, labelText: string, syntax: bool,
                                         syntaxTheme: string, syntaxLanguage: string)
    ensures DisplayContent(displayReportType, reportTypes, allType, content, labelText, false, syntax,
                           syntaxTheme, syntaxLanguage, true)
         == DisplayContent(displayReportType, reportTypes, allType, content, labelText, false, syntax,
                           syntaxTheme, syntaxLanguage, false)
  {
  }

  /** Requesting `all` shows every block, whatever its own report type. */
  lemma AllAlwaysShown<R>(displayReportType: R, reportTypes: seq<R>, allType: R,
                              content: string, labelText: string, richtext: bool, syntax: bool,
                              syntaxTheme: string, syntaxLanguage: string, newline: bool)
    requires allType in reportTypes
    ensures DisplayContent(displayReportType, Some(reportTypes), allType, content, labelText, richtext, syntax,
                           syntaxTheme, syntaxLanguage, newline).Shown?
  {
  }

  /** Requesting more report types never hides a block that was shown, and does not change how it is rendered. */
  lemma MoreTypesShowMore<R>(displayReportType: R, fewer: seq<R>, more: seq<R>, allType: R,
                                 content: string, labelText: string, richtext: bool, syntax: bool,
                                 syntaxTheme: string, syntaxLanguage: string, newline: bool)
    requires forall x :: x in fewer ==> x in more
    requires DisplayContent(displayReportType, Some(fewer), allType, content, labelText, richtext, syntax,
                            syntaxTheme, syntaxLanguage, newline).Shown?
    ensures DisplayContent(displayReportType, Some(more), allType, content, labelText, richtext, syntax,
                           syntaxTheme, syntaxLanguage, newline)
         == DisplayContent(displayReportType, Some(fewer), allType, content, labelText, richtext, syntax,
                           syntaxTheme, syntaxLanguage, newline)
  {
  }
}
