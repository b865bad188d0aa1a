/**
 * The two data-URL field extractors of utils/fileUtils.ts. A data URL in
 * its base64 form reads `data:<mediatype>;base64,<data>` (section 3 of
 * RFC 2397); the extractors do not parse that grammar but compose
 * `split`, `indexOf`, `substring` and `||`, so on other inputs they give
 * whatever those primitives give, and never fail.
 */
module FileUtils {
  import opened JsString

  /** The MIME type reported when none can be cut out of the input. */
  const DefaultMimeType: string := "image/jpeg"

  /**
   * The base64 data URL for a media type and a payload: the template
   * `data:${mimeType};base64,${data}` of services/geminiService.ts, kept
   * beside the extractors because their round-trip lemmas are stated over it.
   */
  function DataUrl(mimeType: string, payload: string): (u: string)
    ensures |u| == |"data:"| + |mimeType| + |";base64,"| + |payload|
    ensures u[..5] == "data:" && u[|u| - |payload|..] == payload
  {
    "data:" + mimeType + ";base64," + payload
  }

  /**
   * `dataUrl.split(',')[1] || dataUrl`: the text between the first and the
   * second comma, unless that piece is missing or empty, in which case the
   * whole input.
   */
  function ExtractBase64Data(dataUrl: string): (r: string)
    ensures r == "" <==> dataUrl == ""
    ensures r == dataUrl || (',' in dataUrl && ',' !in r)
  {
    var parts := Split(dataUrl, ',');
    if |parts| > 1 && parts[1] != "" then parts[1] else dataUrl
  }

  /** Without a comma the input comes back unchanged. */
  lemma ExtractWithoutComma(dataUrl: string)
    requires ',' !in dataUrl
    ensures ExtractBase64Data(dataUrl) == dataUrl
  {
  }

  /**
   * For `a,b` followed by nothing or by another comma: the result is `b`,
   * or the whole input when `b` is empty; everything after a second comma
   * is dropped.
   */
  lemma ExtractSecondPiece(a: string, b: string, rest: string)
    requires ',' !in a && ',' !in b
    requires rest == "" || rest[0] == ','
    ensures ExtractBase64Data(a + "," + b + rest) == if b == "" then a + "," + b + rest else b
  {
    SplitFirstTwo(a, ',', b, rest);
  }

  /** A data URL is its comma-free head, one comma, and the payload. */
  lemma DataUrlShape(mimeType: string, payload: string)
    requires ',' !in mimeType
    ensures var head := "data:" + mimeType + ";base64";
      ',' !in head && DataUrl(mimeType, payload) == head + "," + payload
  {
    var head := "data:" + mimeType + ";base64";
    forall i | 0 <= i < |head| ensures head[i] != ',' {
      if i >= 5 + |mimeType| {
        assert head[i] == ";base64"[i - 5 - |mimeType|];
      } else if i >= 5 {
        assert head[i] == mimeType[i - 5];
      }
    }
  }

  /**
   * After a comma-free head and one comma, the payload comes back exactly
   * when it is non-empty and holds no comma.
   */
  lemma ExtractAfterHead(head: string, payload: string)
    requires ',' !in head
    ensures ExtractBase64Data(head + "," + payload) == payload <==> payload != "" && ',' !in payload
  {
    if ',' !in payload {
      assert head + "," + payload == head + "," + payload + "";
      ExtractSecondPiece(head, payload, "");
    } else {
      var i := IndexOf(payload, ',');
      var b, rest := payload[..i], payload[i..];
      assert head + "," + payload == head + "," + b + rest by {
        assert payload == b + rest;
      }
      ExtractSecondPiece(head, b, rest);
    }
  }

  /**
   * On `data:M;base64,P` (M without a comma) the payload comes back exactly
   * when it is non-empty and holds no comma.
   */
  lemma ExtractFromDataUrl(mimeType: string, payload: string)
    requires ',' !in mimeType
    ensures ExtractBase64Data(DataUrl(mimeType, payload)) == payload <==> payload != "" && ',' !in payload
  {
    DataUrlShape(mimeType, payload);
    ExtractAfterHead("data:" + mimeType + ";base64", payload);
  }

  /**
   * `dataUrl.substring(dataUrl.indexOf(':') + 1, dataUrl.indexOf(';')) || 'image/jpeg'`:
   * the text after the first colon up to the first semicolon, with the
   * clamping and bound swapping of `substring`, or `image/jpeg` when that
   * text is empty. The result is never empty.
   */
  function GetMimeType(dataUrl: string): (r: string)
    ensures r != ""
  {
    var slice := Substring(dataUrl, IndexOf(dataUrl, ':') + 1, IndexOf(dataUrl, ';'));
    if slice == "" then DefaultMimeType else slice
  }

  /**
   * When the first colon comes before the first semicolon, the result is the
   * text between them, or `image/jpeg` when there is none.
   */
  lemma MimeBetweenDelimiters(a: string, m: string, rest: string)
    requires ':' !in a && ';' !in a && ';' !in m
    ensures GetMimeType(a + ":" + m + ";" + rest) == if m == "" then DefaultMimeType else m
  {
    var s := a + ":" + m + ";" + rest;
    assert s == a + [':'] + (m + ";" + rest);
    IndexOfAfterPrefix(a, ':', m + ";" + rest);
    assert ';' !in a + ":" + m;
    assert s == (a + ":" + m) + [';'] + rest;
    IndexOfAfterPrefix(a + ":" + m, ';', rest);
    assert s[|a| + 1..|a| + 1 + |m|] == m;
  }

  /** On `data:M;base64,P` with a non-empty M free of semicolons, the result is M. */
  lemma MimeOfDataUrl(mimeType: string, payload: string)
    requires mimeType != "" && ';' !in mimeType
    ensures GetMimeType(DataUrl(mimeType, payload)) == mimeType
  {
    assert DataUrl(mimeType, payload) == "data" + ":" + mimeType + ";" + ("base64," + payload);
    MimeBetweenDelimiters("data", mimeType, "base64," + payload);
  }

  /** With neither a colon nor a semicolon the default `image/jpeg` is reported. */
  lemma MimeWithoutDelimiters(dataUrl: string)
    requires ':' !in dataUrl && ';' !in dataUrl
    ensures GetMimeType(dataUrl) == DefaultMimeType
  {
  }

  /**
   * A colon but no semicolon: `indexOf(';')` is -1, clamped to 0, and the
   * swapped bounds give the prefix up to and including the first colon.
   */
  lemma MimeWithoutSemicolon(dataUrl: string)
    requires ':' in dataUrl && ';' !in dataUrl
    ensures GetMimeType(dataUrl) == dataUrl[..IndexOf(dataUrl, ':') + 1]
  {
  }

  /**
   * A semicolon before the first colon: the swapped bounds give the text
   * from that semicolon up to and including the colon.
   */
  lemma MimeSemicolonFirst(dataUrl: string)
    requires ':' in dataUrl && ';' in dataUrl
    requires IndexOf(dataUrl, ';') < IndexOf(dataUrl, ':')
    ensures GetMimeType(dataUrl) == dataUrl[IndexOf(dataUrl, ';')..IndexOf(dataUrl, ':') + 1]
  {
    var i, j := IndexOf(dataUrl, ':'), IndexOf(dataUrl, ';');
    var slice := Substring(dataUrl, i + 1, j);
    assert slice == dataUrl[j..i + 1] && |slice| > 0;
  }

  /**
   * A semicolon but no colon: the text before the first semicolon, or the
   * default when the input starts with the semicolon.
   */
  lemma MimeWithoutColon(dataUrl: string)
    requires ':' !in dataUrl && ';' in dataUrl
    ensures GetMimeType(dataUrl) ==
      if IndexOf(dataUrl, ';') == 0 then DefaultMimeType else dataUrl[..IndexOf(dataUrl, ';')]
  {
  }

  /**
   * Reading back a base64 data URL: with a non-empty media type free of `;`
   * and `,`, and a non-empty payload free of `,` (as base64 text is), both
   * fields come back exactly.
   */
  lemma DataUrlRoundTrip(mimeType: string, payload: string)
    requires mimeType != "" && ';' !in mimeType && ',' !in mimeType
    requires payload != "" && ',' !in payload
    ensures GetMimeType(DataUrl(mimeType, payload)) == mimeType
    ensures ExtractBase64Data(DataUrl(mimeType, payload)) == payload
  {
    MimeOfDataUrl(mimeType, payload);
    ExtractFromDataUrl(mimeType, payload);
  }
}
