# next-webp page core, modelled in Dafny

The repository is a one-page Next.js app (`src/pages/index.tsx`). The page takes an image from
the file picker, a drop, or a clipboard paste. It re-encodes PNG and JPEG images as WebP in the
browser and shows the result as a `data:` URL, which can be clicked to download. This project
models the page's pure decision and string logic, and proves properties about it:

- `classNames` (module `ClassNames`): the `reduce` that joins optional class names. A separator
  is added by index, so `classNames(undefined, "x")` is `" x"`.
- `convertWebp` (modules `MimeGate`, `Raster`, `Convert`):
  - the MIME gate `/^image\/(png|jpeg)/`, as a prefix predicate and as a matcher that walks the
    pattern;
  - the canvas steps (a canvas sized to the image, `drawImage` at the origin, `getImageData` of
    the image's size), which hand the encoder the whole image;
  - the three outcomes: the same blob, `null`, or a new `image/webp` blob of the encoder's bytes.
- `convertUrl` (module `Convert`): `undefined` for a missing blob, otherwise
  `data:image/webp;base64,` plus the base64 of the blob's bytes. The blob's declared type is
  ignored.
- Base64 (module `Base64`): the encoding `Buffer#toString("base64")` produces, as defined in
  section 4 of RFC 4648, with a decoder. The decoder lets the model state that a URL carries
  exactly the bytes it was built from.
- The page state (module `Page`): `imageData` and `isDrag` as a record. The handlers and the
  asynchronous completions are discrete events, and a run is any sequence of them.

The image loader (`<img>` `onload`) and the WebP encoder are host services. They are the
function-valued fields of `Convert.Host`, and every property holds for every host.

Some of the code's behaviour differs from what the page appears to intend. The model follows the
code as written:
- Only `image/png` and `image/jpeg` prefixes are converted. `image/gif` is passed through
  unchanged, even though the file input accepts `.gif`.
- A blob that fails the gate is not ignored. `convertWebp` returns it, and the drop path then
  displays its original bytes under the WebP label. The paste path always asks for an
  `image/png` blob, which passes the gate. The file picker also shows original bytes, but only
  because it never calls `convertWebp`.
- There is no idle/progress/finished session state and no stored byte size. The page only holds
  `imageData` and `isDrag`.
- There is only one target format (WebP). No AVIF session exists in this file.

## Model

| member | source | states |
|---|---|---|
| ClassNames.JoinIsPieces | src/pages/index.tsx:5-9 | the left fold computes exactly the in-order concatenation of each entry's piece |
| ClassNames.JoinSnoc | src/pages/index.tsx:7 | appending an entry appends nothing if it is falsy, its name if it is first, and one space plus its name otherwise |
| ClassNames.JoinEmptyIff | src/pages/index.tsx:5-9 | the result is `""` exactly when every entry is `undefined`, `false` or `""`, including the empty list |
| ClassNames.JoinFirstTruthy | src/pages/index.tsx:7 | the result starts with the first truthy entry; it has a leading space when that entry is not at index 0, even though nothing was emitted before it |
| ClassNames.LeadingUndefined | src/pages/index.tsx:7 | `classNames(undefined, x)` is `" " + x` for a non-empty `x`, and `""` when `x` is `""` |
| MimeGate.MatchLiteral | src/pages/index.tsx:12 | matching a literal character by character succeeds exactly when the text holds that literal at that position |
| MimeGate.MatchConvertible | src/pages/index.tsx:12 | the anchored pattern matches exactly the types that begin with `image/png` or `image/jpeg` |
| MimeGate.ConvertibleExtends | src/pages/index.tsx:12 | with no end anchor, an accepted type stays accepted whatever follows it |
| MimeGate.GateExamples | src/pages/index.tsx:12 | PNG, JPEG, and suffixed forms pass; `image/gif`, `image/jpg`, upper case and `""` do not |
| Raster.NewCanvas | src/pages/index.tsx:21-22 | a new canvas has the requested size and every pixel transparent black |
| Raster.DrawImage | src/pages/index.tsx:24 | drawing at an offset onto a transparent canvas gives exactly the image's pixels where the image covers the canvas and keeps the other pixels |
| Raster.GetImageData | src/pages/index.tsx:25 | reading a rectangle gives its size and the canvas pixels at the offset positions, measured from the corner shifted left or up by a negative width or height; a zero-sized rectangle is refused |
| Raster.RasterizeIsWholeImage | src/pages/index.tsx:21-25 | the buffer handed to the encoder is the loaded image itself: same width, same height, every pixel in place |
| Base64.Encode | src/pages/index.tsx:38 | the encoding has length 4·⌈n/3⌉ and is empty exactly for empty input |
| Base64.EncodeAlphabet | src/pages/index.tsx:38 | every character of the encoding is in the base64 alphabet or is the pad character `=` |
| Base64.DecodeEncode | src/pages/index.tsx:38 | decoding the encoding of any bytes gives those bytes back |
| Base64.DecodeCanonical | src/pages/index.tsx:38 | any text that decodes is exactly the encoding of its bytes, so each byte sequence has one accepted base64 text |
| Base64.RfcTestVectors | src/pages/index.tsx:38 | the encoding matches the test vectors of section 10 of RFC 4648 (`""`, `Zg==`, `Zm8=`, `Zm9v`, `Zm9vYg==`, `Zm9vYmE=`, `Zm9vYmFy`) |
| Base64.EncodeInjective | src/pages/index.tsx:38 | two byte sequences have the same encoding exactly when they are equal |
| Convert.DataUrlRoundTrip | src/pages/index.tsx:16 | the data URL built for the image loader carries exactly the blob's bytes, read back under the blob's own type as a known label |
| Convert.ConvertWebp | src/pages/index.tsx:11-28 | a type the gate rejects gives the same blob back; otherwise an image that never loads never settles, a falsy encoder result gives `null`, and any other result gives an `image/webp` blob of the encoder's bytes for the whole image |
| Convert.ConvertWebpOutcomes | src/pages/index.tsx:12-27 | the result is the same blob exactly when the gate rejects the type; any other blob result is typed `image/webp` |
| Convert.ConvertUrl | src/pages/index.tsx:34-40 | it gives `undefined` exactly for a missing blob; otherwise a non-empty URL with the WebP prefix that decodes to the blob's bytes |
| Convert.ConvertUrlDependsOnBytesOnly | src/pages/index.tsx:36-39 | two blobs give the same URL exactly when their bytes are equal, whatever their declared types |
| Page.Step | src/pages/index.tsx:66-107 | clear empties `imageData`; drag enter and leave set only `isDrag`; a drop changes nothing by itself; picking no file changes nothing; picking files shows the first file's bytes; a paste item without PNG changes nothing |
| Page.RunIsLastWrite | src/pages/index.tsx:45-106 | after any event sequence, `imageData` is what the last completion, pick or clear wrote, and `isDrag` is what the last drag enter or leave wrote |
| Page.StepPreservesWellFormed | src/pages/index.tsx:34-40 | every event leaves `imageData` absent or a WebP data URL that decodes |
| Page.RunPreservesWellFormed | src/pages/index.tsx:33-40 | that shape holds after any event sequence |
| Page.WellFormedShownIffStored | src/pages/index.tsx:77 | in any state whose stored value is absent or a WebP data URL, the image branch is rendered exactly when a URL is stored |
| Page.ShownIffStored | src/pages/index.tsx:77 | from the initial state, after any events, the image branch is rendered exactly when a URL is stored |
| Page.DropSettledShows | src/pages/index.tsx:68-73 | a settled drop shows the encoder's bytes for PNG or JPEG, clears the display on a falsy encoder result, leaves the state alone if the image never loads, and shows the original bytes of any other type; `isDrag` is untouched |
| Page.PasteUsesPngOnly | src/pages/index.tsx:43-48 | a clipboard item is converted as a PNG blob of the bytes it offers for `image/png` |
| Page.PickBypassesGate | src/pages/index.tsx:103-107 | the picker never consults the image loader or the encoder, and it shows what a drop of the same file would show if the gate had rejected its type |
| Page.ClearDoesNotCancel | src/pages/index.tsx:81-83 | a conversion that settles after a clear shows its result as if the clear had not happened |
| Page.DropKeepsHighlight | src/pages/index.tsx:66-75 | drag enter, drop, then the drop's completion leave `isDrag` set, because the drop never resets it |
| Page.RootClassNames | src/pages/index.tsx:57 | the root's class is `root` alone, or `root dragover` while a drag hovers |

## Left out

- Image loading and the WebP encoder are not modelled. They are the `Host` parameters `decode`
  and `encode`, so how bytes become pixels and pixels become WebP is open. The canvas steps
  between them (creation, `drawImage`, `getImageData`) are modelled in `Raster`.
- An image that fails to load never fires `onload`, so its conversion never settles
  (`NeverSettles`). The model does not track the pending promise.
- Raster.DrawImage: it is defined only for a transparent canvas, which is the one case at
  line 24. There, default compositing is modelled as an exact copy. Blending over pixels that
  are not transparent is not modelled, and neither are premultiplied-alpha rounding and colour
  management.
- Raster.GetImageData: the pixel buffer is modelled as rows of RGBA pixels, not as the flat
  `Uint8ClampedArray` of width·height·4 bytes.
- An exception thrown by the encoder is not modelled. `Host.encode` always returns.
- `Blob#arrayBuffer` is not modelled. Its resolution is folded into the completion events.
- The paste path's clipboard read (`navigator.clipboard.read`) is not modelled. Each
  `PasteSettled` event is one item's chain; a missing `image/png` type is a rejected `getType`,
  which changes nothing.
- Listener registration and removal (lines 52-53) are not modelled, and neither are
  `preventDefault`/`stopPropagation`, nor the root click that opens the picker (line 63).
- The download anchor (lines 90-93) is not modelled. It only sets a fixed file name and
  changes no state.
- The file input is only rendered while nothing is shown. `Page.Step` accepts a `FilePicked`
  event in any state, because its completion can still arrive later.
- `Drop` events do not record which conversions they started. A `DropSettled` event may name
  any blob, which covers every completion order.
- Base64.Decode is the RFC 4648 decoder used as the partner of the encoder. It rejects
  non-zero unused bits in a padded group. Node's own lenient decoder is not modelled.
- Convert.DataUrlBytes reads a payload after a label it already knows. It is not a general
  data-URL parser, so `DataUrlRoundTrip` says nothing about how a browser would split a URL
  whose type contains `,`. The types that reach the loader begin with `image/png` or
  `image/jpeg`, but the gate lets any suffix through, including one that contains a comma.
- Raster.LoadedImage: the image loader is assumed to return only images with a positive width
  and height. A PNG or JPEG with no pixels fails to load rather than firing `onload`. Under
  this assumption the `getImageData` error for a zero-sized area (line 25) cannot arise.
- The browser's maximum canvas size is not modelled. For a larger image, line 25 throws, the
  promise from `convertWebp` rejects, and nothing is shown.
- The `as string | undefined` cast in `classNames` is a type annotation only. The model returns
  a plain string, which is what the fold always produces.
