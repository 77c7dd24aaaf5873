/**
 * The summariser boundary of the crawler (get_summary_and_tags and the tag
 * string stored with a page): retries on timeout only, the stripping of a
 * ```json fence around the reply, the degradation of every failure to an
 * empty result, and the normalisation of tags.
 */
module Summarizer {
  import opened Wrappers
  import opened Strings

  /** A tag as the model returns it: a plain string or an object with a "name". */
  datatype Tag = TagText(text: string) | TagObject(name: Option<string>)

  /** The decoded JSON envelope of a reply that arrived with a 2xx status. */
  datatype Envelope =
    | ErrorField                      // a top-level "error" key
    | NoChoices                       // "choices" missing or empty
    | FirstChoice(content: Option<string>)  // choices[0].message.content, None if absent or not a string

  /** What one POST to the endpoint gives. */
  datatype Attempt =
    | Timeout                         // httpx.TimeoutException
    | OtherFailure                    // any other exception: status error, undecodable body, connection error
    | Reply(envelope: Envelope)

  /** What json.loads makes of the reply content. */
  datatype Parsed =
    | NotJson
    | NotObject
    | Object(summary: Option<string>, tags: Option<seq<Tag>>)

  const MaxAttempts := 3
  const Fence := "```json"
  const FenceEnd := "```"

  /** A tag as stored: its string (an object's "name", or ""), without any "/". */
  function NormalizeTag(t: Tag): (r: string)
    ensures '/' !in r
  {
    RemoveChar(match t case TagText(s) => s case TagObject(n) => n.GetOr(""), '/')
  }

  function NormalizeAll(tags: seq<Tag>): (r: seq<string>)
    ensures |r| == |tags|
    ensures forall i :: 0 <= i < |tags| ==> r[i] == NormalizeTag(tags[i])
  {
    if |tags| == 0 then [] else [NormalizeTag(tags[0])] + NormalizeAll(tags[1..])
  }

  /** The tags string the crawler stores: the normalised tags joined with ", ". */
  function TagString(tags: seq<Tag>): string {
    Join(", ", NormalizeAll(tags))
  }

  /** The stored tag string never contains "/", is "" for no tags, and is the one tag's string for one tag. */
  lemma TagStringShape(tags: seq<Tag>)
    ensures '/' !in TagString(tags)
    ensures tags == [] ==> TagString(tags) == ""
    ensures |tags| == 1 ==> TagString(tags) == NormalizeTag(tags[0])
  {
    JoinAvoids(", ", NormalizeAll(tags), '/');
  }

  /** The reply content with a leading ```json and a trailing ``` removed, each followed by a strip. */
  function StripFence(content: string): string {
    var c := if StartsWith(content, Fence) then Strip(content[|Fence|..]) else content;
    if EndsWith(c, FenceEnd) then Strip(c[..|c| - |FenceEnd|]) else c
  }

  /** A fenced JSON body comes back out of the fence unchanged. */
  lemma {:induction false} StripFenceRoundTrip(body: string)
    requires |body| > 0 && IsTrimmed(body)
    ensures StripFence(Fence + "\n" + body + "\n" + FenceEnd) == body
  {
    var content := Fence + "\n" + body + "\n" + FenceEnd;
    assert StartsWith(content, Fence) by { assert content[..|Fence|] == Fence; }
    var inner := body + "\n" + FenceEnd;
    assert content[|Fence|..] == "\n" + inner + "";
    assert IsTrimmed(inner) by { assert inner[0] == body[0]; assert inner[|inner| - 1] == '`'; }
    StripPadded("\n", inner, "");
    var c := Strip(content[|Fence|..]);
    assert c == inner;
    assert EndsWith(c, FenceEnd) by { assert c[|c| - 3..] == FenceEnd; }
    assert c[..|c| - |FenceEnd|] == "" + body + "\n";
    StripPadded("", body, "\n");
  }

  /** Content with neither fence is parsed as it is. */
  lemma UnfencedContentUnchanged(content: string)
    requires !StartsWith(content, Fence) && !EndsWith(content, FenceEnd)
    ensures StripFence(content) == content
  {
  }

  /** The summary and tags one reply yields; every failure gives ("", []). */
  function Interpret(e: Envelope, parse: string -> Parsed): (string, seq<Tag>) {
    match e
    case ErrorField => ("", [])
    case NoChoices => ("", [])
    case FirstChoice(None) => ("", [])
    case FirstChoice(Some(content)) =>
      match parse(StripFence(content))
      case Object(summary, tags) => (summary.GetOr(""), tags.GetOr([]))
      case _ => ("", [])
  }

  /** The answer a run of attempts gives: that of the first one that is not a timeout, or ("", []). */
  function FirstAnswer(attempts: seq<Attempt>, parse: string -> Parsed): (r: (string, seq<Tag>))
    ensures (forall i :: 0 <= i < |attempts| ==> attempts[i] == Timeout) ==> r == ("", [])
    ensures |attempts| > 0 && attempts[0] != Timeout ==>
      r == (if attempts[0].Reply? then Interpret(attempts[0].envelope, parse) else ("", []))
  {
    if |attempts| == 0 then ("", [])
    else match attempts[0]
      case Timeout => FirstAnswer(attempts[1..], parse)
      case OtherFailure => ("", [])
      case Reply(e) => Interpret(e, parse)
  }

  /**
   * get_summary_and_tags: POSTs until a non-timeout outcome, at most three
   * times; `outcome(i)` is what the i-th POST gives and `parse` is json.loads.
   */
  method GetSummaryAndTags(outcome: nat -> Attempt, parse: string -> Parsed)
    returns (summary: string, tags: seq<Tag>, posts: nat)
    ensures 1 <= posts <= MaxAttempts
    ensures forall i :: 0 <= i < posts - 1 ==> outcome(i) == Timeout
    ensures posts < MaxAttempts ==> outcome(posts - 1) != Timeout
    ensures outcome(posts - 1).Reply? ==> (summary, tags) == Interpret(outcome(posts - 1).envelope, parse)
    ensures !outcome(posts - 1).Reply? ==> summary == "" && tags == []
    ensures (summary, tags) == FirstAnswer([outcome(0), outcome(1), outcome(2)], parse)
  {
    posts := 0;
    summary, tags := "", [];
    while posts < MaxAttempts
      invariant 0 <= posts <= MaxAttempts
      invariant forall i :: 0 <= i < posts ==> outcome(i) == Timeout
      invariant summary == "" && tags == []
    {
      var o := outcome(posts);
      posts := posts + 1;
      match o {
        case Timeout =>
        case OtherFailure =>
          return;
        case Reply(e) =>
          summary, tags := Interpret(e, parse).0, Interpret(e, parse).1;
          return;
      }
    }
  }

  /** The scenario of a fenced reply: ```json {"summary":"S","tags":["t1"]} ``` gives ("S", ["t1"]). */
  lemma FencedReplyScenario(json: string, parse: string -> Parsed)
    requires |json| > 0 && IsTrimmed(json)
    requires parse(json) == Object(Some("S"), Some([TagText("t1")]))
    ensures Interpret(FirstChoice(Some(Fence + "\n" + json + "\n" + FenceEnd)), parse) == ("S", [TagText("t1")])
  {
    StripFenceRoundTrip(json);
  }
}
