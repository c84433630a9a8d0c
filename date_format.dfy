/**
 * `SimpleDateFormat.parse` as an oracle. A parser is given the format pattern and the
 * text; it either yields the local time the text denotes (`Some`) or fails (`None`,
 * standing for a `ParseException`). Nothing is assumed about how a pattern matches:
 * `SimpleDateFormat` is lenient and parses a prefix.
 */
module DateFormat {
  import opened Wrappers
  import opened Calendar

  type DateParser = (string, string) -> Option<Instant>

  /**
   * The result of the first format, in list order, under which `text` parses; `None`
   * when every format fails.
   */
  function FirstParse(formats: seq<string>, text: string, parse: DateParser): (r: Option<Instant>)
    ensures r.Some? ==> exists k :: 0 <= k < |formats| && parse(formats[k], text) == r && FailsBefore(formats, text, parse, k)
    ensures r.None? <==> FailsBefore(formats, text, parse, |formats|)
    decreases |formats|
  {
    if formats == [] then None
    else
      var d := parse(formats[0], text);
      if d.Some? then d
      else
        var rest := FirstParse(formats[1..], text, parse);
        assert forall k :: 0 <= k < |formats| - 1 ==> formats[1..][k] == formats[k + 1];
        rest
  }

  /** Every format before position `k` fails on `text`. */
  predicate FailsBefore(formats: seq<string>, text: string, parse: DateParser, k: int)
    requires k <= |formats|
  {
    forall j :: 0 <= j < k ==> parse(formats[j], text).None?
  }

  /** The first format that parses decides the result. */
  lemma FirstParseIsFirstSuccess(formats: seq<string>, text: string, parse: DateParser, k: nat)
    requires k < |formats| && parse(formats[k], text).Some? && FailsBefore(formats, text, parse, k)
    ensures FirstParse(formats, text, parse) == parse(formats[k], text)
  {
    var r := FirstParse(formats, text, parse);
    assert !FailsBefore(formats, text, parse, |formats|);
    var k' :| 0 <= k' < |formats| && parse(formats[k'], text) == r && FailsBefore(formats, text, parse, k');
    assert k' == k;
  }
}
