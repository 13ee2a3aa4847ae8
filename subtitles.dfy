/**
 * The subtitle buffer both pages keep (`translatedSubtitles`) and the fixed chain of
 * `replaceAll` calls applied to it when it is rendered.
 */
module Subtitles {
  import opened Optional
  import opened JsString
  import opened Http

  /**
   * `if (t.trim()) setTranslatedSubtitles(prev => `${prev} ${t}`)`: the buffer only grows,
   * it is left alone exactly when `t` is blank, and otherwise gains one space and `t` verbatim.
   */
  function AppendSubtitle(prev: string, t: string): (r: string)
    ensures prev <= r
    ensures r == prev <==> IsBlank(t)
    ensures r != prev ==> r[|prev|..] == " " + t
  {
    if IsBlank(t) then prev else prev + " " + t
  }

  /**
   * The append a page makes from a fetched reply: only a string member that is not blank is
   * appended; every failure (rejected fetch, status not ok, body not JSON, missing member)
   * lands in the `catch` and leaves the buffer as it was.
   */
  function ApplyReply(buffer: string, reply: FieldReply): (r: string)
    ensures buffer <= r
    ensures r != buffer <==> reply.Field? && reply.value.Some? && !IsBlank(reply.value.value)
    ensures r != buffer ==> r == buffer + " " + reply.value.value
  {
    match reply
    case Field(Some(t)) => AppendSubtitle(buffer, t)
    case _ => buffer
  }

  /**
   * The rendered subtitles: delete every `"`, then `" ."` to `"."`, then `" ,"` to `"."`
   * (a comma becomes a period), then `" ?"` to `"?"`, each a full `replaceAll` pass.
   */
  function Display(s: string): string {
    var noQuotes := ReplaceAll(s, "\"", "");
    var periods := ReplaceAll(noQuotes, " .", ".");
    var commas := ReplaceAll(periods, " ,", ".");
    ReplaceAll(commas, " ?", "?")
  }

  /** No double quote survives the chain: the first pass deletes them and no later pass writes one. */
  lemma DisplayHasNoQuote(s: string)
    ensures '"' !in Display(s)
  {
    var noQuotes := ReplaceAll(s, "\"", "");
    ReplaceAllDeletes(s, '"');
    var periods := ReplaceAll(noQuotes, " .", ".");
    ReplaceAllKeepsAbsent(noQuotes, " .", ".", '"');
    var commas := ReplaceAll(periods, " ,", ".");
    ReplaceAllKeepsAbsent(periods, " ,", ".", '"');
    ReplaceAllKeepsAbsent(commas, " ?", "?", '"');
  }

  /** Rendering never lengthens the text: every pass replaces a pattern by something no longer. */
  lemma DisplayNotLonger(s: string)
    ensures |Display(s)| <= |s|
  {
  }

  /** After the chain no space is followed by a comma: the third pass removes them all and the fourth cannot create one. */
  lemma DisplayNoSpaceComma(s: string)
    ensures !Contains(Display(s), " ,")
  {
    var noQuotes := ReplaceAll(s, "\"", "");
    var periods := ReplaceAll(noQuotes, " .", ".");
    var commas := ReplaceAll(periods, " ,", ".");
    ReplacePairNoSpaceBefore(periods, ',', '.', ',');
    ReplacePairNoSpaceBefore(commas, '?', '?', ',');
    NoSpaceBeforeIsNotContains(Display(s), ',');
  }

  /** Text in which none of the four patterns occurs is rendered exactly as stored. */
  lemma DisplayUnchanged(s: string)
    requires '"' !in s && !Contains(s, " .") && !Contains(s, " ,") && !Contains(s, " ?")
    ensures Display(s) == s
  {
    assert !Contains(s, "\"") by {
      forall i: nat | i <= |s| ensures !MatchAt(s, "\"", i) {
        if i + 1 <= |s| { assert s[i..i + 1] == [s[i]]; }
      }
    }
    ReplaceAllNoMatch(s, "\"", "");
    ReplaceAllNoMatch(s, " .", ".");
    ReplaceAllNoMatch(s, " ,", ".");
    ReplaceAllNoMatch(s, " ?", "?");
  }
}
