/** The self-describing image string `data:<mimeType>;base64,<data>` and the
    gateway's parser for it (`dataUrlToParts`, `dataUrlToPart`).
 */
module DataUrl {
  import opened Wrappers
  import opened JsString
  import opened MimePattern
  import opened GenAi

  /** The split form handed to the generation service. */
  datatype InlineData = InlineData(mimeType: string, data: string)

  /** The two errors `dataUrlToParts` throws. */
  datatype ParseError =
    | InvalidDataUrl   // no comma at all
    | MissingMimeType  // no `:`…`;` match before the first comma, or an empty one

  /** A MIME type that survives the trip through the data-URL format:
      non-empty, and free of `;`, `,` and line terminators. */
  predicate PortableMimeType(m: string) {
    m != [] && ';' !in m && ',' !in m && NoLineTerminatorIn(m, 0, |m|)
  }

  /** The string the gateway builds from a MIME type and base64 data. Its
      only comma is the one before the data, so when neither argument holds
      a comma it splits into exactly the header `data:<mimeType>;base64` and
      the data. */
  function FormatDataUrl(mimeType: string, data: string): (r: string)
    ensures ',' !in mimeType && ',' !in data ==>
      Split(r, ',') == ["data:" + mimeType + ";base64", data]
  {
    var head := "data:" + mimeType + ";base64";
    var r := head + [','] + data;
    if ',' !in mimeType && ',' !in data then
      assert ',' !in head by {
        assert forall k | 5 <= k < 5 + |mimeType| :: head[k] == mimeType[k - 5];
      }
      SplitAfterPrefix(head, [','] + data, ',');
      assert ([','] + data)[1..] == data;
      SplitNoSeparator(data, ',');
      var parts := Split(r, ',');
      assert parts == [parts[0]] + parts[1..];
      r
    else
      r
  }

  /** `dataUrlToParts`: split at commas; the MIME type is group 1 of
      `/:(.*?);/` on the first piece, the data is the second piece. */
  function DataUrlToParts(url: string): (r: Result<InlineData, ParseError>)
    ensures r == Failure(InvalidDataUrl) <==> ',' !in url
    ensures r.Success? ==>
      && r.value.mimeType != []
      && ',' !in r.value.mimeType
      && ',' !in r.value.data
      && |r.value.mimeType| + |r.value.data| + 3 <= |url|
  {
    var arr := Split(url, ',');
    if |arr| < 2 then Failure(InvalidDataUrl)
    else
      match Match(arr[0])
      case None => Failure(MissingMimeType)
      case Some(m) =>
        var mimeType := Capture(arr[0], m);
        if mimeType == [] then Failure(MissingMimeType)
        else
          assert url == arr[0] + [','] + Join(arr[1..], ',');
          assert |Join(arr[1..], ',')| >= |arr[1]|;
          Success(InlineData(mimeType, arr[1]))
  }

  /** `dataUrlToPart`: the same parse, wrapped as an inline-data request part. */
  function DataUrlToPart(url: string): (r: Result<Part, ParseError>)
    ensures r.Success? <==> DataUrlToParts(url).Success?
    ensures r.Failure? ==> r.error == DataUrlToParts(url).error
    ensures r.Success? ==>
      && r.value.text.None?
      && r.value.inlineData == Some(Blob(Some(DataUrlToParts(url).value.mimeType),
                                         Some(DataUrlToParts(url).value.data)))
  {
    match DataUrlToParts(url)
    case Failure(e) => Failure(e)
    case Success(p) => Success(Part(Some(Blob(Some(p.mimeType), Some(p.data))), None))
  }

  /** `head` names a MIME type: its selected `:`…`;` match exists and
      encloses at least one character. */
  ghost predicate HasMimeType(head: string) {
    exists p: nat, q: nat :: IsSelectedMatch(head, p, q) && p + 1 < q
  }

  /** The first two comma-separated pieces of `head,d` and `head,d,…` are
      `head` and `d`. */
  lemma CommaFields(url: string, head: string, d: string, tail: string)
    requires url == head + [','] + d + tail
    requires ',' !in head && ',' !in d
    requires tail == [] || tail[0] == ','
    ensures |Split(url, ',')| >= 2
    ensures Split(url, ',')[0] == head && Split(url, ',')[1] == d
  {
    var rest := d + tail;
    var t := [','] + rest;
    assert url == head + t;
    assert t[1..] == rest;
    SplitAfterPrefix(head, t, ',');
    SplitAfterPrefix(d, tail, ',');
    var arr := Split(url, ',');
    assert arr[1..] == Split(rest, ',');
    assert arr[1] == arr[1..][0];
  }

  /** How a data URL with a comma is read, in terms of its comma-separated
      fields: `url` is `head,d` or `head,d,…`. The result depends on `head`
      and `d` only. It fails with `MissingMimeType` exactly when `head`
      has no `:`…`;` match or the selected match is empty; otherwise the MIME
      type is the selected match's group and the data is `d`. */
  lemma ParseFields(url: string, head: string, d: string, tail: string)
    requires url == head + [','] + d + tail
    requires ',' !in head && ',' !in d
    requires tail == [] || tail[0] == ','
    ensures DataUrlToParts(url).Failure? <==> !HasMimeType(head)
    ensures DataUrlToParts(url).Failure? ==> DataUrlToParts(url).error == MissingMimeType
    ensures forall p: nat, q: nat | IsSelectedMatch(head, p, q) && p + 1 < q ::
      DataUrlToParts(url) == Success(InlineData(head[p + 1..q], d))
  {
    CommaFields(url, head, d, tail);
    match Match(head)
    case None =>
    case Some(m) =>
      forall p: nat, q: nat | IsSelectedMatch(head, p, q)
        ensures p == m.colon && q == m.semi
      {
        SelectedMatchUnique(head, p, q, m.colon, m.semi);
      }
  }

  /** Round trip: the string built from a MIME type and data parses back to
      exactly that pair, when the MIME type is non-empty and free of `;`,
      `,` and line terminators, and the data is free of `,`. */
  lemma ParseFormat(mimeType: string, data: string)
    requires mimeType != []
    requires ';' !in mimeType && ',' !in mimeType
    requires NoLineTerminatorIn(mimeType, 0, |mimeType|)
    requires ',' !in data
    ensures DataUrlToParts(FormatDataUrl(mimeType, data)) == Success(InlineData(mimeType, data))
  {
    var head := "data:" + mimeType + ";base64";
    var semi := 5 + |mimeType|;
    assert FormatDataUrl(mimeType, data) == head + [','] + data + [];
    assert forall k | 5 <= k < semi :: head[k] == mimeType[k - 5];
    assert PatternAt(head, 4, semi);
    assert IsSelectedMatch(head, 4, semi);
    ParseFields(FormatDataUrl(mimeType, data), head, data, []);
    assert head[5..semi] == mimeType;
  }

  /** The other half of the round trip: re-formatting what was parsed from a
      well-formed data URL reproduces the URL. */
  lemma FormatParse(url: string, mimeType: string, data: string)
    requires url == FormatDataUrl(mimeType, data)
    requires mimeType != []
    requires ';' !in mimeType && ',' !in mimeType
    requires NoLineTerminatorIn(mimeType, 0, |mimeType|)
    requires ',' !in data
    ensures DataUrlToParts(url).Success?
    ensures FormatDataUrl(DataUrlToParts(url).value.mimeType, DataUrlToParts(url).value.data) == url
  {
    ParseFormat(mimeType, data);
  }

  /** The MIME type ends at the first `;` after the `:`: parameters after it
      (`image/svg+xml;charset=utf-8`) are dropped, so the round trip of
      `ParseFormat` needs a MIME type without `;`. */
  lemma MimeTypeEndsAtFirstSemicolon(mimeType: string, params: string, data: string)
    requires mimeType != [] && ';' !in mimeType && ',' !in mimeType
    requires NoLineTerminatorIn(mimeType, 0, |mimeType|)
    requires ',' !in params && ',' !in data
    ensures DataUrlToParts(FormatDataUrl(mimeType + ";" + params, data)) == Success(InlineData(mimeType, data))
  {
    var url := FormatDataUrl(mimeType + ";" + params, data);
    var head := "data:" + mimeType + ";" + params + ";base64";
    var semi := 5 + |mimeType|;
    assert url == head + [','] + data + [];
    assert forall k | 5 <= k < semi :: head[k] == mimeType[k - 5];
    assert PatternAt(head, 4, semi);
    assert IsSelectedMatch(head, 4, semi);
    ParseFields(url, head, data, []);
    assert head[5..semi] == mimeType;
  }

  /** An empty MIME type is rejected, even though a later `:`…`;` in the
      first field would have named one: the leftmost match is the one read. */
  lemma EmptyMimeTypeRejected(later: string, data: string)
    requires ',' !in later && ',' !in data
    ensures DataUrlToParts("data:;" + later + "," + data) == Failure(MissingMimeType)
  {
    var head := "data:;" + later;
    assert "data:;" + later + "," + data == head + [','] + data + [];
    assert IsSelectedMatch(head, 4, 5);
    forall p: nat, q: nat | IsSelectedMatch(head, p, q) ensures p + 1 == q {
      MimePattern.SelectedMatchUnique(head, p, q, 4, 5);
    }
    ParseFields("data:;" + later + "," + data, head, data, []);
  }
}
