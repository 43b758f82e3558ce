/** `convertWebp` and `convertUrl`: the MIME gate, the load-draw-read-encode
    pipeline with the image loader and the WebP encoder as host services,
    and the data URL the page displays. */
module Convert {
  import opened Wrappers
  import opened Bytes
  import opened Base64
  import opened MimeGate
  import opened Raster

  /** A `Blob`: its bytes and its declared type. */
  datatype Blob = Blob(bytes: seq<byte>, mimeType: string)

  /** The services `convertWebp` calls but whose workings are not modelled.
      `decode` is an `<img>` element loading a data URL: the loaded image, or
      None when `onload` never fires. `encode` is the WebP encoder applied to
      a pixel buffer: its bytes, or None when it returns a falsy value. */
  datatype Host = Host(decode: string -> Option<LoadedImage>, encode: Bitmap -> Option<seq<byte>>)

  /** How the promise `convertWebp` returns ends: with a value (a `Blob`, or
      None for `null`), or never, when the image never loads. */
  datatype Settlement = Fulfilled(value: Option<Blob>) | NeverSettles

  const WebpType := "image/webp"

  /** The `data:` URL of a base64 payload with the given type label. */
  function DataUrl(mimeType: string, payload: string): string {
    "data:" + mimeType + ";base64," + payload
  }

  /** The bytes a `data:` URL carries, provided it starts with the known
      prefix for `mimeType` and its payload is canonical base64. This reads
      back a URL whose label is already known; it is not a general data-URL
      parser, which splits at the first comma, so it agrees with a browser
      only for types without `,` (`image/webp`, `image/png`, `image/jpeg`). */
  function DataUrlBytes(url: string, mimeType: string): Option<seq<byte>> {
    var prefix := DataUrl(mimeType, "");
    if StartsWith(url, prefix) then Decode(url[|prefix|..]) else None
  }

  /** A data URL built from bytes carries exactly those bytes under the label
      it was built with. */
  lemma DataUrlRoundTrip(mimeType: string, bytes: seq<byte>)
    ensures DataUrlBytes(DataUrl(mimeType, Encode(bytes)), mimeType) == Some(bytes)
  {
    var prefix := DataUrl(mimeType, "");
    var url := DataUrl(mimeType, Encode(bytes));
    assert url == prefix + Encode(bytes);
    assert url[..|prefix|] == prefix;
    assert url[|prefix|..] == Encode(bytes);
    DecodeEncode(bytes);
  }

  /** `convertWebp(blob)`. A type that fails the gate is passed through as the
      same blob. Otherwise the blob is loaded as an image from a data URL
      labelled with its own type, drawn onto a canvas of the image's size,
      read back whole and encoded: a falsy encoder result gives `null`, any
      other result a new `image/webp` blob holding exactly the encoder's
      bytes. */
  function ConvertWebp(host: Host, blob: Blob): (r: Settlement)
    ensures !IsConvertible(blob.mimeType) ==> r == Fulfilled(Some(blob))
    ensures IsConvertible(blob.mimeType) ==>
              var loaded := host.decode(DataUrl(blob.mimeType, Encode(blob.bytes)));
              match loaded
              case None => r == NeverSettles
              case Some(img) =>
                match host.encode(img)
                case None => r == Fulfilled(None)
                case Some(webp) => r == Fulfilled(Some(Blob(webp, WebpType)))
  {
    if !IsConvertible(blob.mimeType) then Fulfilled(Some(blob))
    else
      var src := DataUrl(blob.mimeType, Encode(blob.bytes));
      match host.decode(src)
      case None => NeverSettles
      case Some(img) =>
        RasterizeIsWholeImage(img);
        var pixels := Rasterize(img).value;
        match host.encode(pixels)
        case None => Fulfilled(None)
        case Some(webp) => Fulfilled(Some(Blob(webp, WebpType)))
  }

  /** The three outcomes: the same blob back, `null`, or a WebP-typed blob;
      and the same blob back happens exactly for types the gate rejects
      (a conversion result is always typed `image/webp`, which the gate
      rejects). */
  lemma ConvertWebpOutcomes(host: Host, blob: Blob)
    ensures ConvertWebp(host, blob) == Fulfilled(Some(blob)) <==> !IsConvertible(blob.mimeType)
    ensures ConvertWebp(host, blob).Fulfilled? && ConvertWebp(host, blob).value.Some? ==>
              var out := ConvertWebp(host, blob).value.value;
              out == blob || out.mimeType == WebpType
  {
    assert WebpType[..9][6] != "image/png"[6];
    assert WebpType[..10][6] != "image/jpeg"[6];
    assert !IsConvertible(WebpType);
  }

  /** `convertUrl(blob)`: `undefined` for a missing blob; otherwise the blob's
      bytes in base64 behind the fixed `data:image/webp;base64,` prefix,
      whatever type the blob declares. The result is never the empty string,
      so it always counts as truthy. */
  function ConvertUrl(blob: Option<Blob>): (url: Option<string>)
    ensures url.None? <==> blob.None?
    ensures url.Some? ==> url.value != "" && StartsWith(url.value, DataUrl(WebpType, ""))
    ensures url.Some? ==> DataUrlBytes(url.value, WebpType) == Some(blob.value.bytes)
  {
    match blob
    case None => None
    case Some(b) =>
      DataUrlRoundTrip(WebpType, b.bytes);
      var url := DataUrl(WebpType, Encode(b.bytes));
      assert url[..|DataUrl(WebpType, "")|] == DataUrl(WebpType, "");
      Some(url)
  }

  /** The label ignores the declared type: two blobs with the same bytes give
      the same URL, and blobs with different bytes never do. */
  lemma ConvertUrlDependsOnBytesOnly(a: Blob, b: Blob)
    ensures ConvertUrl(Some(a)) == ConvertUrl(Some(b)) <==> a.bytes == b.bytes
  {
  }
}
