/** The page component's state: the displayed data URL (`imageData`) and the
    drag-hover flag (`isDrag`), driven by the handlers as a sequence of
    discrete events. An asynchronous completion (a conversion settling, the
    picked file's URL being ready) is an event of its own, so any
    interleaving of completions is one event order. */
module Page {
  import opened Wrappers
  import opened Bytes
  import opened Base64
  import opened MimeGate
  import opened ClassNames
  import opened Convert

  /** An item read from the clipboard: the bytes it offers per type. */
  datatype ClipboardItem = ClipboardItem(types: map<string, seq<byte>>)

  datatype Event =
    | DragEnter
    | DragLeave
      /** The drop handler: starts one conversion per file, touches no state. */
    | Drop(files: seq<Blob>)
      /** The conversion of one dropped file settles (or was going to, if it never does). */
    | DropSettled(file: Blob)
      /** The paste chain for one clipboard item runs to its end. */
    | PasteSettled(item: ClipboardItem)
      /** The file input's change handler, once the URL of the picked file is ready. */
    | FilePicked(files: seq<Blob>)
      /** A click on the clear control. */
    | ClearClicked

  datatype PageState = PageState(imageData: Option<string>, isDrag: bool)

  const Initial := PageState(None, false)

  /** What one conversion chain hands to `setImageData`: nothing if the
      conversion never settles, otherwise `convertUrl` of its result. */
  function Completion(host: Host, blob: Blob): Option<Option<string>> {
    match ConvertWebp(host, blob)
    case Fulfilled(v) => Some(ConvertUrl(v))
    case NeverSettles => None
  }

  /** The value an event stores in `imageData`, if it stores one. */
  function DisplayWrite(host: Host, e: Event): Option<Option<string>> {
    match e
    case DropSettled(file) => Completion(host, file)
    case PasteSettled(item) =>
      if "image/png" in item.types then Completion(host, Blob(item.types["image/png"], "image/png"))
      else None
    case FilePicked(files) =>
      if |files| == 0 then None else Some(ConvertUrl(Some(files[0])))
    case ClearClicked => Some(None)
    case _ => None
  }

  /** The value an event stores in `isDrag`, if it stores one. */
  function DragWrite(e: Event): Option<bool> {
    match e
    case DragEnter => Some(true)
    case DragLeave => Some(false)
    case _ => None
  }

  /** One handler or completion applied to the state. */
  function Step(host: Host, s: PageState, e: Event): (r: PageState)
    ensures e == ClearClicked ==> r.imageData == None && r.isDrag == s.isDrag
    ensures e.DragEnter? ==> r == s.(isDrag := true)
    ensures e.DragLeave? ==> r == s.(isDrag := false)
    ensures e.Drop? ==> r == s
    ensures e.FilePicked? && e.files == [] ==> r == s
    ensures e.FilePicked? && e.files != [] ==>
              r.isDrag == s.isDrag && r.imageData.Some? &&
              DataUrlBytes(r.imageData.value, WebpType) == Some(e.files[0].bytes)
    ensures e.PasteSettled? && "image/png" !in e.item.types ==> r == s
  {
    PageState(DisplayWrite(host, e).GetOr(s.imageData), DragWrite(e).GetOr(s.isDrag))
  }

  /** The events applied in order. */
  function Run(host: Host, s: PageState, events: seq<Event>): PageState
    decreases |events|
  {
    if |events| == 0 then s else Run(host, Step(host, s, events[0]), events[1..])
  }

  lemma {:induction false} RunSnoc(host: Host, s: PageState, events: seq<Event>, e: Event)
    ensures Run(host, s, events + [e]) == Step(host, Run(host, s, events), e)
    decreases |events|
  {
    if |events| > 0 {
      assert (events + [e])[1..] == events[1..] + [e];
      RunSnoc(host, Step(host, s, events[0]), events[1..], e);
    }
  }

  /** Reference definition: the value written by the last event that writes
      `imageData`, if any does. */
  function LastDisplayWrite(host: Host, events: seq<Event>): Option<Option<string>> {
    if |events| == 0 then None
    else if DisplayWrite(host, events[|events| - 1]).Some? then DisplayWrite(host, events[|events| - 1])
    else LastDisplayWrite(host, events[..|events| - 1])
  }

  /** Reference definition: the value written by the last drag enter/leave, if any. */
  function LastDragWrite(events: seq<Event>): Option<bool> {
    if |events| == 0 then None
    else if DragWrite(events[|events| - 1]).Some? then DragWrite(events[|events| - 1])
    else LastDragWrite(events[..|events| - 1])
  }

  /** Last write wins: after any sequence of events, `imageData` holds what
      the last display-writing event wrote (the last completion, pick or
      clear, in completion order) and `isDrag` what the last drag
      enter/leave wrote; with no such event each keeps its starting value. */
  lemma {:induction false} RunIsLastWrite(host: Host, s: PageState, events: seq<Event>)
    ensures Run(host, s, events).imageData == LastDisplayWrite(host, events).GetOr(s.imageData)
    ensures Run(host, s, events).isDrag == LastDragWrite(events).GetOr(s.isDrag)
    decreases |events|
  {
    if |events| > 0 {
      var init := events[..|events| - 1];
      var e := events[|events| - 1];
      assert init + [e] == events;
      RunSnoc(host, s, init, e);
      RunIsLastWrite(host, s, init);
    }
  }

  /** The stored value is always absent or a WebP-labelled data URL that
      decodes to some bytes. */
  predicate WellFormed(s: PageState) {
    s.imageData.Some? ==> DataUrlBytes(s.imageData.value, WebpType).Some?
  }

  /** `imageData ? ... : ...` tests JavaScript truthiness: a present, non-empty string. */
  predicate Shown(s: PageState) {
    s.imageData.Some? && s.imageData.value != ""
  }

  /** Every event keeps the stored value absent or a well-formed WebP data URL. */
  lemma StepPreservesWellFormed(host: Host, s: PageState, e: Event)
    requires WellFormed(s)
    ensures WellFormed(Step(host, s, e))
  {
  }

  lemma {:induction false} RunPreservesWellFormed(host: Host, s: PageState, events: seq<Event>)
    requires WellFormed(s)
    ensures WellFormed(Run(host, s, events))
    decreases |events|
  {
    if |events| > 0 {
      StepPreservesWellFormed(host, s, events[0]);
      RunPreservesWellFormed(host, Step(host, s, events[0]), events[1..]);
    }
  }

  /** In a well-formed state the image branch is rendered exactly when a URL
      is stored: a WebP data URL is never the empty string. */
  lemma WellFormedShownIffStored(s: PageState)
    requires WellFormed(s)
    ensures Shown(s) <==> s.imageData.Some?
  {
  }

  /** From the initial state, the image branch is rendered exactly when a
      URL is stored: no reachable state stores an empty string. */
  lemma ShownIffStored(host: Host, events: seq<Event>)
    ensures Shown(Run(host, Initial, events)) <==> Run(host, Initial, events).imageData.Some?
  {
    RunPreservesWellFormed(host, Initial, events);
    WellFormedShownIffStored(Run(host, Initial, events));
  }

  /** A settled drop of a PNG or JPEG blob whose image loads shows the
      encoder's bytes, or clears the display when the encoder gives nothing;
      a blob of any other type (a GIF, say) is shown as its original bytes,
      still labelled WebP. */
  lemma DropSettledShows(host: Host, s: PageState, file: Blob)
    ensures var src := DataUrl(file.mimeType, Encode(file.bytes));
            var r := Step(host, s, DropSettled(file));
            r.isDrag == s.isDrag &&
            (!IsConvertible(file.mimeType) ==>
               r.imageData.Some? && DataUrlBytes(r.imageData.value, WebpType) == Some(file.bytes)) &&
            (IsConvertible(file.mimeType) && host.decode(src).None? ==> r == s) &&
            (IsConvertible(file.mimeType) && host.decode(src).Some? ==>
               match host.encode(host.decode(src).value)
               case None => r.imageData.None?
               case Some(webp) =>
                 r.imageData.Some? && DataUrlBytes(r.imageData.value, WebpType) == Some(webp))
  {
  }

  /** The paste path asks the item for `image/png` only: an item offering
      PNG bytes is converted as a PNG blob, whatever else it offers. */
  lemma PasteUsesPngOnly(host: Host, s: PageState, item: ClipboardItem)
    requires "image/png" in item.types
    ensures Step(host, s, PasteSettled(item)) == Step(host, s, DropSettled(Blob(item.types["image/png"], "image/png")))
  {
  }

  /** The file picker skips `convertWebp`: what it shows does not depend on
      the image loader or the encoder at all, and it is what a drop of the
      same file would show if the gate had rejected the file's type. */
  lemma PickBypassesGate(host: Host, other: Host, s: PageState, files: seq<Blob>)
    requires |files| > 0
    ensures Step(host, s, FilePicked(files)) == Step(other, s, FilePicked(files))
    ensures !IsConvertible(files[0].mimeType) ==>
              Step(host, s, FilePicked(files)) == Step(host, s, DropSettled(files[0]))
  {
  }

  /** Clearing does not cancel: a conversion that settles after the clear
      shows its result again, exactly as if the clear had not happened. */
  lemma ClearDoesNotCancel(host: Host, s: PageState, file: Blob)
    requires ConvertWebp(host, file).Fulfilled?
    ensures Run(host, s, [ClearClicked, DropSettled(file)]) == Step(host, s, DropSettled(file))
  {
    var cleared := Step(host, s, ClearClicked);
    assert [ClearClicked, DropSettled(file)][1..] == [DropSettled(file)];
    assert Run(host, s, [ClearClicked, DropSettled(file)]) == Run(host, cleared, [DropSettled(file)]);
    assert Run(host, cleared, [DropSettled(file)]) == Step(host, cleared, DropSettled(file));
  }

  /** The drop handler never resets the drag flag, so the highlight set by
      drag-enter stays after a drop until a drag-leave. */
  lemma DropKeepsHighlight(host: Host, s: PageState, files: seq<Blob>, file: Blob)
    ensures Run(host, s, [DragEnter, Drop(files), DropSettled(file)]).isDrag
  {
    var events := [DragEnter, Drop(files), DropSettled(file)];
    RunIsLastWrite(host, s, events);
    assert events[..2] == [DragEnter, Drop(files)];
    assert events[..2][..1] == [DragEnter];
    assert LastDragWrite(events) == LastDragWrite(events[..2]) == LastDragWrite([DragEnter]);
  }

  /** The root element's class list, `classNames(styled.root, isDrag && styled.dragover)`. */
  function RootClass(s: PageState, root: ClassArg, dragover: ClassArg): string {
    Join([root, if s.isDrag then dragover else False])
  }

  /** With both style names present, the root shows `root` alone, and
      `root dragover` while a drag hovers. */
  lemma RootClassNames(s: PageState, root: string, dragover: string)
    requires root != "" && dragover != ""
    ensures RootClass(s, Name(root), Name(dragover)) == if s.isDrag then root + " " + dragover else root
  {
    var second := if s.isDrag then Name(dragover) else False;
    assert [Name(root)] + [second] == [Name(root), second];
    JoinSnoc([Name(root)], second);
    assert [] + [Name(root)] == [Name(root)];
    JoinSnoc([], Name(root));
  }
}
