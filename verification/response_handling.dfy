/** `handleApiResponse`: turns a generation response into the image string or
    exactly one of three errors, by a fixed precedence — a block reason, then
    the first image part, then an abnormal finish reason of the first
    candidate, then "no image" (with the model's trimmed text when it has
    any). The thrown errors are modelled as tagged variants carrying the
    values the error message quotes.
 */
module ResponseHandling {
  import opened Wrappers
  import opened JsString
  import opened GenAi
  import opened DataUrl

  datatype Outcome =
    | Image(url: string)                        // the `data:` string returned
    | Blocked(reason: string, message: string)  // request refused
    | Aborted(finishReason: string)             // generation stopped abnormally
    | NoImage(feedback: Option<string>)         // no image; the trimmed text if any

  /** Where an image part sits: candidate index and part index. */
  datatype Location = Location(candidate: nat, part: nat)

  /** `part.inlineData` is truthy (any present object is). */
  predicate IsImagePart(p: Part) {
    p.inlineData.Some?
  }

  /** Part `j` of candidate `i` carries inline data. */
  ghost predicate ImageAt(cs: seq<Candidate>, i: nat, j: nat) {
    i < |cs| && j < |PartsOf(cs[i])| && IsImagePart(PartsOf(cs[i])[j])
  }

  /** Some part of some candidate carries inline data. */
  ghost predicate HasImage(cs: seq<Candidate>) {
    exists i: nat, j: nat :: ImageAt(cs, i, j)
  }

  /** `(i, j)` is the image part the scan reaches first: no earlier candidate
      has one, and no earlier part of candidate `i` does. */
  ghost predicate IsFirstImage(cs: seq<Candidate>, i: nat, j: nat) {
    && ImageAt(cs, i, j)
    && (forall i': nat, j': nat | i' < i :: !ImageAt(cs, i', j'))
    && (forall j': nat | j' < j :: !ImageAt(cs, i, j'))
  }

  /** `response.promptFeedback?.blockReason` is truthy. */
  predicate IsBlocked(r: Response) {
    r.promptFeedback.Some? && Truthy(r.promptFeedback.value.blockReason)
  }

  /** `response.candidates?.[0]?.finishReason`: the finish reason of the
      first candidate, absent when the list is missing or empty. */
  function FirstFinishReason(r: Response): (reason: Option<string>)
    ensures |CandidatesOf(r)| == 0 ==> reason.None?
    ensures |CandidatesOf(r)| > 0 ==> reason == CandidatesOf(r)[0].finishReason
  {
    if r.candidates.Some? && |r.candidates.value| > 0 then r.candidates.value[0].finishReason
    else None
  }

  /** The template literal `${v}`: an absent value renders as "undefined". */
  function Render(v: Option<string>): string {
    match v
    case Some(s) => s
    case None => "undefined"
  }

  /** The success string built from an image part's inline data, with each
      field rendered as the template literal renders it. Whatever the two
      fields render to, the parser reads them back, provided the rendered
      MIME type is portable and the rendered data has no comma. */
  function ImageUrl(b: Blob): (url: string)
    ensures PortableMimeType(Render(b.mimeType)) && ',' !in Render(b.data) ==>
      DataUrlToParts(url) == Success(InlineData(Render(b.mimeType), Render(b.data)))
  {
    var m, d := Render(b.mimeType), Render(b.data);
    if PortableMimeType(m) && ',' !in d then
      ParseFormat(m, d);
      FormatDataUrl(m, d)
    else
      FormatDataUrl(m, d)
  }

  /** An image part without a MIME type yields a string whose MIME type
      reads back as the text "undefined" (and likewise for absent data). */
  lemma AbsentMimeTypeRendersUndefined(data: Option<string>)
    requires ',' !in Render(data)
    ensures DataUrlToParts(ImageUrl(Blob(None, data))) == Success(InlineData("undefined", Render(data)))
  {
    assert PortableMimeType("undefined");
  }

  /** `parts.find(part => part.inlineData)`, as the index found. */
  function FindImagePart(ps: seq<Part>, from: nat): (r: Option<nat>)
    requires from <= |ps|
    ensures r.Some? ==>
      && from <= r.value < |ps|
      && IsImagePart(ps[r.value])
      && forall k | from <= k < r.value :: !IsImagePart(ps[k])
    ensures r.None? ==> forall k | from <= k < |ps| :: !IsImagePart(ps[k])
    decreases |ps| - from
  {
    if from == |ps| then None
    else if IsImagePart(ps[from]) then Some(from)
    else FindImagePart(ps, from + 1)
  }

  /** The `for … of` loop over the candidates, from candidate `from` on. */
  function FirstImageFrom(cs: seq<Candidate>, from: nat): (r: Option<Location>)
    requires from <= |cs|
    ensures r.Some? ==>
      && from <= r.value.candidate
      && ImageAt(cs, r.value.candidate, r.value.part)
      && (forall i: nat, j: nat | from <= i < r.value.candidate :: !ImageAt(cs, i, j))
      && (forall j: nat | j < r.value.part :: !ImageAt(cs, r.value.candidate, j))
    ensures r.None? ==> forall i: nat, j: nat | from <= i :: !ImageAt(cs, i, j)
    decreases |cs| - from
  {
    if from == |cs| then None
    else
      match FindImagePart(PartsOf(cs[from]), 0)
      case Some(j) => Some(Location(from, j))
      case None => FirstImageFrom(cs, from + 1)
  }

  /** The first image part of the whole candidate list, if there is one. */
  function FirstImage(cs: seq<Candidate>): (r: Option<Location>)
    ensures r.Some? ==> IsFirstImage(cs, r.value.candidate, r.value.part)
    ensures r.None? <==> !HasImage(cs)
  {
    FirstImageFrom(cs, 0)
  }

  /** The blob of the image part at a location. */
  function BlobAt(cs: seq<Candidate>, i: nat, j: nat): Blob
    requires i < |cs| && j < |PartsOf(cs[i])| && IsImagePart(PartsOf(cs[i])[j])
  {
    PartsOf(cs[i])[j].inlineData.value
  }

  /** `handleApiResponse`. Each branch is characterised by the condition that
      selects it, so the precedence reads off the contract: a block reason
      wins over everything; an image anywhere wins over every finish reason
      and text; only the first candidate's finish reason is consulted; and
      an image is returned only if some part carries one. */
  function HandleApiResponse(resp: Response): (r: Outcome)
    ensures r.Blocked? <==> IsBlocked(resp)
    ensures r.Blocked? ==>
      && r.reason == resp.promptFeedback.value.blockReason.value
      && r.message == resp.promptFeedback.value.blockReasonMessage.GetOr("")
    ensures r.Image? <==> !IsBlocked(resp) && HasImage(CandidatesOf(resp))
    ensures r.Image? ==>
      exists i: nat, j: nat :: IsFirstImage(CandidatesOf(resp), i, j)
        && r.url == ImageUrl(BlobAt(CandidatesOf(resp), i, j))
    ensures r.Aborted? <==>
      && !IsBlocked(resp)
      && !HasImage(CandidatesOf(resp))
      && Truthy(FirstFinishReason(resp))
      && FirstFinishReason(resp).value != "STOP"
    ensures r.Aborted? ==> r.finishReason == FirstFinishReason(resp).value
    ensures r.NoImage? ==>
      && (r.feedback.Some? <==> resp.text.Some? && !AllTrimmable(resp.text.value))
      && (r.feedback.Some? ==> r.feedback.value == Trim(resp.text.value))
  {
    if IsBlocked(resp) then
      var fb := resp.promptFeedback.value;
      Blocked(fb.blockReason.value, fb.blockReasonMessage.GetOr(""))
    else
      var cs := CandidatesOf(resp);
      match FirstImage(cs)
      case Some(loc) => Image(ImageUrl(BlobAt(cs, loc.candidate, loc.part)))
      case None =>
        var finishReason := FirstFinishReason(resp);
        if Truthy(finishReason) && finishReason.value != "STOP" then Aborted(finishReason.value)
        else
          var textFeedback := if resp.text.Some? then Some(Trim(resp.text.value)) else None;
          if Truthy(textFeedback) then NoImage(textFeedback) else NoImage(None)
  }

  /** There is only one first image part. */
  lemma FirstImageUnique(cs: seq<Candidate>, i: nat, j: nat, i': nat, j': nat)
    requires IsFirstImage(cs, i, j) && IsFirstImage(cs, i', j')
    ensures i == i' && j == j'
  {
  }

  /** The first image part wins: with no block reason, a response whose
      candidates are `before + [c] + after`, where no candidate of `before`
      and no part of `c` before part `j` carries inline data, yields the
      string built from part `j` of `c`, whatever `after`, the finish reasons
      and the text hold. */
  lemma FirstImageWins(resp: Response, before: seq<Candidate>, c: Candidate, j: nat, after: seq<Candidate>)
    requires !IsBlocked(resp)
    requires resp.candidates == Some(before + [c] + after)
    requires forall i: nat, k: nat :: !ImageAt(before, i, k)
    requires j < |PartsOf(c)| && IsImagePart(PartsOf(c)[j])
    requires forall k | 0 <= k < j :: !IsImagePart(PartsOf(c)[k])
    ensures HandleApiResponse(resp) == Image(ImageUrl(PartsOf(c)[j].inlineData.value))
  {
    var cs := before + [c] + after;
    var i := |before|;
    assert cs[i] == c;
    forall i': nat, j': nat | i' < i ensures !ImageAt(cs, i', j') {
      assert cs[i'] == before[i'];
      assert !ImageAt(before, i', j');
    }
    assert IsFirstImage(cs, i, j);
    var loc := FirstImage(cs).value;
    FirstImageUnique(cs, i, j, loc.candidate, loc.part);
  }

  /** The outcome depends on nothing but the block fields, the parts of each
      candidate, the first candidate's finish reason and the text: the
      finish reasons of later candidates, and everything else a candidate or
      part carries, are never consulted. */
  lemma OutcomeDependsOnlyOn(r1: Response, r2: Response)
    requires r1.promptFeedback == r2.promptFeedback
    requires |CandidatesOf(r1)| == |CandidatesOf(r2)|
    requires forall i | 0 <= i < |CandidatesOf(r1)| ::
      PartsOf(CandidatesOf(r1)[i]) == PartsOf(CandidatesOf(r2)[i])
    requires FirstFinishReason(r1) == FirstFinishReason(r2)
    requires r1.text == r2.text
    ensures HandleApiResponse(r1) == HandleApiResponse(r2)
  {
    var cs1, cs2 := CandidatesOf(r1), CandidatesOf(r2);
    assert forall i: nat, j: nat :: ImageAt(cs1, i, j) == ImageAt(cs2, i, j);
    if !IsBlocked(r1) && HasImage(cs1) {
      var loc1 := FirstImage(cs1).value;
      var loc2 := FirstImage(cs2).value;
      FirstImageUnique(cs1, loc1.candidate, loc1.part, loc2.candidate, loc2.part);
    }
  }

  /** Once some candidate carries an image (and nothing is blocked), no
      finish reason and no text changes the result: an image-bearing
      response with finish reason "SAFETY" still succeeds. */
  lemma ImageIgnoresFinishReasonsAndText(r1: Response, r2: Response)
    requires !IsBlocked(r1) && HasImage(CandidatesOf(r1))
    requires r1.promptFeedback == r2.promptFeedback
    requires |CandidatesOf(r1)| == |CandidatesOf(r2)|
    requires forall i | 0 <= i < |CandidatesOf(r1)| ::
      PartsOf(CandidatesOf(r1)[i]) == PartsOf(CandidatesOf(r2)[i])
    ensures HandleApiResponse(r1) == HandleApiResponse(r2)
  {
    var cs1, cs2 := CandidatesOf(r1), CandidatesOf(r2);
    assert forall i: nat, j: nat :: ImageAt(cs1, i, j) == ImageAt(cs2, i, j);
    var loc1 := FirstImage(cs1).value;
    var loc2 := FirstImage(cs2).value;
    FirstImageUnique(cs1, loc1.candidate, loc1.part, loc2.candidate, loc2.part);
  }

  /** A response whose first candidate carries no image and whose second
      carries an image part (say `image/png` with data `AAAA`) yields that
      part's data URL (`data:image/png;base64,AAAA`). */
  lemma SecondCandidateImage(c0: Candidate, mimeType: string, data: string, text: Option<string>)
    requires forall k | 0 <= k < |PartsOf(c0)| :: !IsImagePart(PartsOf(c0)[k])
    ensures
      var c1 := Candidate(Some(Content(Some([Part(Some(Blob(Some(mimeType), Some(data))), None)]))), None);
      HandleApiResponse(Response(None, Some([c0, c1]), text)) == Image(FormatDataUrl(mimeType, data))
  {
    var c1 := Candidate(Some(Content(Some([Part(Some(Blob(Some(mimeType), Some(data))), None)]))), None);
    var resp := Response(None, Some([c0, c1]), text);
    assert [c0] + [c1] + [] == [c0, c1];
    assert forall i: nat, k: nat :: !ImageAt([c0], i, k);
    FirstImageWins(resp, [c0], c1, 0, []);
  }

  /** With no image anywhere, a first candidate stopped for "SAFETY" yields
      the aborted error naming it, whatever the text says. */
  lemma SafetyStopAborts(parts: seq<Part>, text: Option<string>, later: seq<Candidate>)
    requires forall k | 0 <= k < |parts| :: !IsImagePart(parts[k])
    requires forall i: nat, j: nat :: !ImageAt(later, i, j)
    ensures
      var c0 := Candidate(Some(Content(Some(parts))), Some("SAFETY"));
      HandleApiResponse(Response(None, Some([c0] + later), text)) == Aborted("SAFETY")
  {
    var c0 := Candidate(Some(Content(Some(parts))), Some("SAFETY"));
    var cs := [c0] + later;
    forall i: nat, j: nat ensures !ImageAt(cs, i, j) {
      if 1 <= i < |cs| {
        assert cs[i] == later[i - 1];
        assert !ImageAt(later, i - 1, j);
      }
    }
  }

  /** An empty block reason is falsy: the response is handled as if it had
      no prompt feedback at all. */
  lemma EmptyBlockReasonIgnored(resp: Response, message: Option<string>)
    requires resp.promptFeedback == Some(PromptFeedback(Some(""), message))
    ensures HandleApiResponse(resp) == HandleApiResponse(resp.(promptFeedback := None))
  {
  }

  /** A missing candidate list reads as an empty one (`?? []`, `?.[0]`): with
      no block reason the result is the "no image" error. */
  lemma MissingCandidatesReadAsEmpty(resp: Response)
    requires resp.candidates.None?
    ensures HandleApiResponse(resp) == HandleApiResponse(resp.(candidates := Some([])))
    ensures !IsBlocked(resp) ==> HandleApiResponse(resp).NoImage?
  {
  }
}
