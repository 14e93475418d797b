/** Where the two halves of the gateway meet: the string `handleApiResponse`
    returns is the string the next call hands to `dataUrlToPart` (the
    composite from one generation is the input of the pose variation).
 */
module Boundary {
  import opened Wrappers
  import opened JsString
  import opened GenAi
  import opened DataUrl
  import opened ResponseHandling

  /** A response that returns an image returns one the parser reads back as
      the MIME type and data of the first image part, when both are present,
      the MIME type is portable and the data has no comma. */
  lemma HandleThenParse(resp: Response, i: nat, j: nat, mimeType: string, data: string)
    requires IsFirstImage(CandidatesOf(resp), i, j)
    requires BlobAt(CandidatesOf(resp), i, j) == Blob(Some(mimeType), Some(data))
    requires !IsBlocked(resp)
    requires PortableMimeType(mimeType) && ',' !in data
    ensures HandleApiResponse(resp).Image?
    ensures DataUrlToParts(HandleApiResponse(resp).url) == Success(InlineData(mimeType, data))
  {
  }

  /** A well-formed data URL turned into a request part and handed back as
      the only part of a response's only candidate comes back unchanged. */
  lemma PartRoundTrip(url: string, mimeType: string, data: string, finishReason: Option<string>)
    requires url == FormatDataUrl(mimeType, data)
    requires PortableMimeType(mimeType) && ',' !in data
    ensures DataUrlToPart(url).Success?
    ensures
      var resp := Response(None, Some([Candidate(Some(Content(Some([DataUrlToPart(url).value]))), finishReason)]), None);
      HandleApiResponse(resp) == Image(url)
  {
    ParseFormat(mimeType, data);
    var p := DataUrlToPart(url).value;
    var c := Candidate(Some(Content(Some([p]))), finishReason);
    var resp := Response(None, Some([c]), None);
    assert [] + [c] + [] == [c];
    FirstImageWins(resp, [], c, 0, []);
  }
}
