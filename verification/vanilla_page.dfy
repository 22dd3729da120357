/** The page state of app.js: the module-level `selectedFiles`, the submit
    button's `disabled` flag and `loading` class, and the number of
    `handleSubmit` calls still awaiting `fetch`. Every handler runs to
    completion, so the page is a sequence of events applied one by one.

    As written, `render()` sets the button's `disabled` from emptiness
    alone, also while an upload is in flight. Each redrawing event
    therefore takes a `guarded` flag: `false` is the code as written,
    `true` the corrected redraw that keeps the button disabled while a
    submission is pending. */
module VanillaPage {
  import opened Wrappers
  import opened Store
  import opened StoreProperties
  import opened View
  import opened Submission

  datatype Page = Page(files: seq<StagedFile>, submitDisabled: bool, loading: bool, inFlight: nat)

  /** The button line of `render()` as written. */
  function Render(p: Page): Page
  {
    p.(submitDisabled := |p.files| == 0)
  }

  /** The corrected button line: disabled while empty or while an upload
      is pending. */
  function GuardedRender(p: Page): Page
  {
    p.(submitDisabled := |p.files| == 0 || p.inFlight > 0)
  }

  function Redraw(guarded: bool, p: Page): Page
  {
    if guarded then GuardedRender(p) else Render(p)
  }

  /** File picker `change` or drop: `addFiles`, then redraw. */
  function Pick(guarded: bool, p: Page, files: seq<FileHandle>, ids: seq<Id>): Page
    requires |ids| >= |files|
  {
    Redraw(guarded, p.(files := AddFiles(p.files, files, ids)))
  }

  /** A remove button: `removeFile(id)`, then redraw. */
  function Discard(guarded: bool, p: Page, id: Id): Page
  {
    Redraw(guarded, p.(files := RemoveFile(p.files, id)))
  }

  /** The document's Escape handler: with a non-empty store it removes the
      last entry (with unique ids, exactly that one); with an empty store
      nothing happens. */
  function EscapeKey(guarded: bool, p: Page): (r: Page)
    ensures |p.files| == 0 ==> r == p
    ensures UniqueIds(p.files) && |p.files| > 0 ==> r.files == p.files[..|p.files| - 1]
    ensures r.inFlight == p.inFlight && r.loading == p.loading
  {
    if |p.files| == 0 then p
    else
      assert UniqueIds(p.files) ==> RemoveLast(p.files) == p.files[..|p.files| - 1] by {
        if UniqueIds(p.files) {
          RemoveLastDropsLast(p.files);
        }
      }
      Redraw(guarded, p.(files := RemoveLast(p.files)))
  }

  /** A metadata control's `change`: `updateMeta`, no redraw. */
  function Edit(p: Page, id: Id, f: Field, v: string): Page
  {
    p.(files := UpdateFirst(p.files, id, f, v))
  }

  /** The synchronous part of `handleSubmit`: nothing on an empty store,
      else the button is disabled, shows the loading state, and one request
      carrying `FormParts(p.files)` goes out. */
  function Begin(p: Page): Page
  {
    if |p.files| == 0 then p
    else p.(submitDisabled := true, loading := true, inFlight := p.inFlight + 1)
  }

  /** The part of `handleSubmit` after `fetch` settles: on `res.ok` the
      store is emptied and redrawn; on any other status or a transport
      error the store is kept; `finally` clears the loading state and
      re-derives the button. */
  function Settle(guarded: bool, p: Page, resp: Response): Page
    requires p.inFlight > 0
  {
    var q := if IsOk(resp) then Redraw(guarded, p.(files := [])) else p;
    var n := p.inFlight - 1;
    q.(loading := false, inFlight := n, submitDisabled := |q.files| == 0 || (guarded && n > 0))
  }

  /** One `handleSubmit` run to completion: an empty store means no request
      and no change; success leaves the store empty, failure leaves it
      untouched; afterwards the loading state is off. As written, the
      button is then disabled exactly when the store is empty, however many
      uploads are pending; the corrected redraw gives that only when no
      other upload is pending, and otherwise keeps the button disabled. */
  function HandleSubmit(guarded: bool, p: Page, resp: Response): (r: Page)
    ensures |p.files| == 0 ==> r == p
    ensures |p.files| > 0 && IsOk(resp) ==> r.files == []
    ensures !IsOk(resp) ==> r.files == p.files
    ensures |p.files| > 0 ==> !r.loading && r.inFlight == p.inFlight
    ensures |p.files| > 0 && (!guarded || p.inFlight == 0) ==> (r.submitDisabled <==> |r.files| == 0)
    ensures guarded && |p.files| > 0 && p.inFlight > 0 ==> r.submitDisabled
  {
    if |p.files| == 0 then p else Settle(guarded, Begin(p), resp)
  }

  /** A click reaches `handleSubmit` only while the button is enabled. */
  function Click(p: Page): Page
  {
    if p.submitDisabled then p else Begin(p)
  }

  datatype Event =
    | PickEvent(files: seq<FileHandle>, ids: seq<Id>)
    | DiscardEvent(id: Id)
    | EscapeEvent
    | EditEvent(id: Id, field: Field, value: string)
    | ClickEvent
    | ReplyEvent(resp: Response)

  /** One event. A reply arrives only for a pending request, and the id
      oracle supplies an id for every candidate of a pick (an event without
      enough ids cannot arise and is ignored). */
  function Step(guarded: bool, p: Page, e: Event): Page
  {
    match e
    case PickEvent(files, ids) => if |ids| >= |files| then Pick(guarded, p, files, ids) else p
    case DiscardEvent(id) => Discard(guarded, p, id)
    case EscapeEvent => EscapeKey(guarded, p)
    case EditEvent(id, f, v) => Edit(p, id, f, v)
    case ClickEvent => Click(p)
    case ReplyEvent(resp) => if p.inFlight > 0 then Settle(guarded, p, resp) else p
  }

  function Run(guarded: bool, p: Page, es: seq<Event>): Page
    decreases |es|
  {
    if |es| == 0 then p else Run(guarded, Step(guarded, p, es[0]), es[1..])
  }

  /** What the corrected page keeps: the store bounds, and at most one
      upload pending, during which the button stays disabled. */
  ghost predicate Safe(p: Page)
  {
    Bounded(p.files) && p.inFlight <= 1 && (p.inFlight > 0 ==> p.submitDisabled)
  }

  lemma PickKeepsBounded(guarded: bool, p: Page, files: seq<FileHandle>, ids: seq<Id>)
    requires |ids| >= |files| && Bounded(p.files)
    ensures Bounded(Pick(guarded, p, files, ids).files)
  {
    AddFilesKeepsBounded(p.files, files, ids);
  }

  lemma EscapeKeepsBounded(guarded: bool, p: Page)
    requires Bounded(p.files)
    ensures Bounded(EscapeKey(guarded, p).files)
  {
    if |p.files| > 0 {
      RemoveFileKeepsBounded(p.files, p.files[|p.files| - 1].id);
    }
  }

  lemma StepKeepsBounded(guarded: bool, p: Page, e: Event)
    requires Bounded(p.files)
    ensures Bounded(Step(guarded, p, e).files)
  {
    match e
    case PickEvent(files, ids) =>
      if |ids| >= |files| {
        PickKeepsBounded(guarded, p, files, ids);
      }
    case DiscardEvent(id) => RemoveFileKeepsBounded(p.files, id);
    case EscapeEvent => EscapeKeepsBounded(guarded, p);
    case EditEvent(id, f, v) => UpdateFirstKeepsIdsAndBounds(p.files, id, f, v);
    case ClickEvent =>
    case ReplyEvent(resp) =>
  }

  lemma StepKeepsSafe(p: Page, e: Event)
    requires Safe(p)
    ensures Safe(Step(true, p, e))
  {
    StepKeepsBounded(true, p, e);
  }

  /** On the corrected page, from any safe state (the initial page holds no
      files and no pending upload), every sequence of events keeps the
      bounds and at most one upload in flight. */
  lemma {:induction false} GuardedRunIsSafe(p: Page, es: seq<Event>)
    requires Safe(p)
    ensures Safe(Run(true, p, es))
    decreases |es|
  {
    if |es| > 0 {
      StepKeepsSafe(p, es[0]);
      GuardedRunIsSafe(Step(true, p, es[0]), es[1..]);
    }
  }

  /** As written the store bounds still hold across every event sequence. */
  lemma {:induction false} RunKeepsBounded(guarded: bool, p: Page, es: seq<Event>)
    requires Bounded(p.files)
    ensures Bounded(Run(guarded, p, es).files)
    decreases |es|
  {
    if |es| > 0 {
      StepKeepsBounded(guarded, p, es[0]);
      RunKeepsBounded(guarded, Step(guarded, p, es[0]), es[1..]);
    }
  }

  /** As written, pressing Escape during an upload redraws and re-enables
      the button while the request is pending, and a second click starts a
      second concurrent upload of the remaining files. */
  lemma EscapeDuringUploadAllowsSecondUpload(a: StagedFile, b: StagedFile)
    requires a.id != b.id
    ensures Run(false, Page([a, b], false, false, 0), [ClickEvent, EscapeEvent]).inFlight == 1
    ensures !Run(false, Page([a, b], false, false, 0), [ClickEvent, EscapeEvent]).submitDisabled
    ensures Run(false, Page([a, b], false, false, 0), [ClickEvent, EscapeEvent, ClickEvent]).inFlight == 2
  {
    var p0 := Page([a, b], false, false, 0);
    var p1 := Click(p0);
    assert p1 == Page([a, b], true, true, 1);
    assert UniqueIds([a, b]);
    var p2 := EscapeKey(false, p1);
    assert p2.files == [a];
    assert p2 == Page([a], false, true, 1);
    assert Run(false, p0, [ClickEvent, EscapeEvent]) == p2 by {
      assert [ClickEvent, EscapeEvent][1..] == [EscapeEvent];
      assert [EscapeEvent][1..] == [];
    }
    assert Run(false, p0, [ClickEvent, EscapeEvent, ClickEvent]) == Click(p2) by {
      assert [ClickEvent, EscapeEvent, ClickEvent][1..] == [EscapeEvent, ClickEvent];
      assert [EscapeEvent, ClickEvent][1..] == [ClickEvent];
      assert [ClickEvent][1..] == [];
    }
  }
}
