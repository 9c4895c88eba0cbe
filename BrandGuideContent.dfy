/** getBrandGuideContent: the text of a user's brand guide, decoded from
  * the base64 data URL stored with the guide or, when nothing was stored,
  * fetched from file storage, with the action's error messages. */
module BrandGuideContent {
  import opened Schema
  import opened Text
  import Base64
  import Store

  const InvalidDataUrl := "Invalid data URL format"
  const NotFound := "Brand guide not found"
  const DecodeFailed := "Failed to decode file content"
  const UploadIncomplete := "File upload not completed properly. Please try uploading again."
  const StorageFailed := "Failed to get file URL from storage. The file may not have been uploaded correctly."

  /** What is handed to the decoder: content that does not start with
    * "data:" as it is; for a data URL, the piece between its first and
    * second comma (`split(',')[1]`), which must be present and non-empty. */
  function ContentToDecode(content: string): (r: Result<string>)
    ensures !StartsWith(content, "data:") ==> r == Ok(content)
    ensures StartsWith(content, "data:") && r.Ok? ==> r.value != "" && ',' !in r.value
    ensures r.Err? ==> r.error == InvalidDataUrl
  {
    if StartsWith(content, "data:") then
      var parts := Split(content, ',');
      if |parts| < 2 || parts[1] == "" then Err(InvalidDataUrl) else Ok(parts[1])
    else Ok(content)
  }

  /** A string free of the separator splits into itself alone. */
  lemma SplitWithout(s: string, sep: char)
    requires sep !in s
    ensures Split(s, sep) == [s]
  {
    SplitJoin([s], sep);
  }

  /** A join of comma-free pieces, the first starting with "data:" and the
    * second non-empty, yields its second piece. */
  lemma DataUrlParts(parts: seq<string>)
    requires |parts| >= 2 && StartsWith(parts[0], "data:") && parts[1] != ""
    requires forall k :: 0 <= k < |parts| ==> ',' !in parts[k]
    ensures ContentToDecode(Join(parts, ',')) == Ok(parts[1])
  {
    SplitJoin(parts, ',');
    var j := Join(parts, ',');
    assert j == parts[0] + [','] + Join(parts[1..], ',');
    assert j[..5] == parts[0][..5];
  }

  /** "data:" followed by a comma-free header is a comma-free piece that
    * starts with "data:". */
  lemma DataHead(header: string)
    requires ',' !in header
    ensures StartsWith("data:" + header, "data:") && ',' !in "data:" + header
  {
    var head := "data:" + header;
    assert head[..5] == "data:";
    assert forall c :: c in head ==> c in "data:" || c in header;
  }

  /** A data URL "data:<header>,<payload>" with a comma-free header and a
    * non-empty comma-free payload yields the payload. */
  lemma DataUrlPayload(header: string, payload: string)
    requires ',' !in header && ',' !in payload && payload != ""
    ensures ContentToDecode("data:" + header + "," + payload) == Ok(payload)
  {
    DataHead(header);
    DataUrlParts(["data:" + header, payload]);
    assert Join(["data:" + header, payload], ',') == "data:" + header + "," + payload;
  }

  /** Whatever follows a second comma does not change the payload. */
  lemma DataUrlPayloadFollowed(header: string, payload: string, tail: string)
    requires ',' !in header && ',' !in payload && payload != ""
    ensures ContentToDecode("data:" + header + "," + payload + "," + tail) == Ok(payload)
  {
    DataHead(header);
    var head := "data:" + header;
    var rest := Split(tail, ',');
    JoinSplit(tail, ',');
    var parts := [head, payload] + rest;
    DataUrlParts(parts);
    assert parts[1..] == [payload] + rest;
    assert ([payload] + rest)[1..] == rest;
    var tailJoin := Join([payload] + rest, ',');
    assert tailJoin == payload + [','] + tail;
    assert Join(parts, ',') == head + [','] + tailJoin;
    calc {
      head + [','] + tailJoin;
      head + [','] + (payload + [','] + tail);
      { Base64.Assoc(head + [','], payload + [','], tail); }
      head + [','] + (payload + [',']) + tail;
      { Base64.Assoc(head + [','], payload, [',']); }
      head + [','] + payload + [','] + tail;
    }
  }

  /** A data URL without a comma, or with nothing after its first comma,
    * is rejected. */
  lemma DataUrlWithoutPayload(header: string)
    requires ',' !in header
    ensures ContentToDecode("data:" + header) == Err(InvalidDataUrl)
    ensures ContentToDecode("data:" + header + ",") == Err(InvalidDataUrl)
  {
    var head := "data:" + header;
    assert ',' !in head by {
      assert forall c :: c in head ==> c in "data:" || c in header;
    }
    assert StartsWith(head, "data:") by {
      assert head[..5] == "data:";
    }
    SplitWithout(head, ',');
    SplitJoin([head, ""], ',');
    assert Join([head, ""], ',') == head + ",";
    assert StartsWith(head + ",", "data:") by {
      assert (head + ",")[..5] == "data:";
    }
  }

  /** No base64 digit is a comma. */
  lemma SextetNotComma(w: bv32, shift: bv32)
    requires shift <= 18
    ensures Base64.SextetChar(w, shift) != ','
  {
    var c := Base64.SextetChar(w, shift);
    assert Base64.Digit(c) >= 0;
    assert Base64.Digit(',') == -1;
  }

  /** Base64 text never holds a comma. */
  lemma {:induction false} EncodeNoComma(b: seq<Base64.Byte>)
    ensures ',' !in Base64.Encode(b)
    decreases |b|
  {
    var s := Base64.Encode(b);
    if |b| == 1 {
      var w := Base64.Word(b[0], 0, 0);
      SextetNotComma(w, 18);
      SextetNotComma(w, 12);
      assert s == [Base64.SextetChar(w, 18), Base64.SextetChar(w, 12), '=', '='];
    } else if |b| == 2 {
      var w := Base64.Word(b[0], b[1], 0);
      SextetNotComma(w, 18);
      SextetNotComma(w, 12);
      SextetNotComma(w, 6);
      assert s == [Base64.SextetChar(w, 18), Base64.SextetChar(w, 12), Base64.SextetChar(w, 6), '='];
    } else if |b| > 2 {
      var w := Base64.Word(b[0], b[1], b[2]);
      SextetNotComma(w, 18);
      SextetNotComma(w, 12);
      SextetNotComma(w, 6);
      SextetNotComma(w, 0);
      EncodeNoComma(b[3..]);
      var g := [Base64.SextetChar(w, 18), Base64.SextetChar(w, 12), Base64.SextetChar(w, 6), Base64.SextetChar(w, 0)];
      assert s == g + Base64.Encode(b[3..]);
      assert ',' !in g;
    }
  }

  /** A data URL as `readAsDataURL` produces it, "data:<type>;base64,<base64>",
    * yields its base64 text. (The uploader strips that prefix before
    * storing, so stored content is usually bare, padded base64, which
    * passes through unchanged.) */
  lemma DataUrlOfEncoded(mediaType: string, b: seq<Base64.Byte>)
    requires ',' !in mediaType && |b| > 0
    ensures ContentToDecode("data:" + mediaType + ";base64" + "," + Base64.Encode(b)) == Ok(Base64.Encode(b))
  {
    EncodeNoComma(b);
    Base64.EncodeHead(b);
    var header := mediaType + ";base64";
    assert ',' !in header by {
      assert forall c :: c in header ==> c in mediaType || c in ";base64";
    }
    DataUrlPayload(header, Base64.Encode(b));
    Base64.Assoc("data:", mediaType, ";base64");
  }

  /** getBrandGuideContent: "Brand guide not found" for a missing guide;
    * stored content is decoded by the decoder as written (after taking the
    * payload of a data URL), which returns the uploaded bytes only when
    * their number is a multiple of 3 and corrupts every padded encoding;
    * a malformed data URL fails as "Failed to decode file content";
    * without stored content, an http file id means the upload never
    * completed, and otherwise the file is read from storage, whose failure
    * has its own message. `storage` is the storage lookup and fetch of a
    * file id, None when either fails. */
  method GetBrandGuideContent(db: Store.Database, brandGuideId: Id, storage: string -> Option<string>)
    returns (r: Result<string>)
    ensures brandGuideId !in db.brandGuides ==> r == Err(NotFound)
    ensures brandGuideId in db.brandGuides && db.brandGuides[brandGuideId].fileContent.Some? &&
            db.brandGuides[brandGuideId].fileContent.value != "" ==>
              var stored := db.brandGuides[brandGuideId].fileContent.value;
              match ContentToDecode(stored)
              case Err(_) => r == Err(DecodeFailed)
              case Ok(payload) =>
                && r == Ok(Base64.Latin1(Base64.Decoded(Base64.AsWritten, payload)))
                && |r.value| == 3 * ((|payload| + 3) / 4)
                && (forall b :: |b| % 3 == 0 && payload == Base64.Encode(b) ==> r == Ok(Base64.Latin1(b)))
                && (forall b :: |b| % 3 != 0 && payload == Base64.Encode(b) ==> r != Ok(Base64.Latin1(b)))
    ensures brandGuideId in db.brandGuides && !(db.brandGuides[brandGuideId].fileContent.Some? &&
            db.brandGuides[brandGuideId].fileContent.value != "") ==>
              var fileId := db.brandGuides[brandGuideId].fileId;
              if StartsWith(fileId, "http") then r == Err(UploadIncomplete)
              else if storage(fileId).None? then r == Err(StorageFailed)
              else r == Ok(storage(fileId).value)
  {
    if brandGuideId !in db.brandGuides {
      return Err(NotFound);
    }
    var brandGuide := db.brandGuides[brandGuideId];
    if brandGuide.fileContent.Some? && brandGuide.fileContent.value != "" {
      var contentToDecode := ContentToDecode(brandGuide.fileContent.value);
      if contentToDecode.Err? {
        return Err(DecodeFailed);
      }
      var decoded := Base64.Base64Decode(contentToDecode.value);
      forall b | contentToDecode.value == Base64.Encode(b)
        ensures |b| % 3 == 0 ==> decoded == Base64.Latin1(b)
        ensures |b| % 3 != 0 ==> decoded != Base64.Latin1(b)
      {
        if |b| % 3 == 0 {
          Base64.DecodeEncode(b);
        } else {
          Base64.PaddedEncodingsCorrupted(b);
        }
      }
      return Ok(decoded);
    }
    if StartsWith(brandGuide.fileId, "http") {
      return Err(UploadIncomplete);
    }
    var fetched := storage(brandGuide.fileId);
    if fetched.None? {
      return Err(StorageFailed);
    }
    r := Ok(fetched.value);
  }
}
