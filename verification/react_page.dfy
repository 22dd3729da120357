/** The page state of pages/upload.js: the `selected` store, the `busy`
    flag, the `msg` notice, and the number of `handleSubmit` calls still
    awaiting `fetch`. React applies each state update in order, so the page
    is a sequence of events applied one by one; `onFiles` is taken with
    the store length of the latest render (see `Store.OnFiles` for a stale
    one). */
module ReactPage {
  import opened FileNames
  import opened Store
  import opened StoreProperties
  import opened Submission

  datatype Page = Page(selected: seq<StagedFile>, busy: bool, notice: Notice, inFlight: nat)

  /** The `disabled` memo of the submit button. */
  predicate Disabled(p: Page)
  {
    p.busy || |p.selected| == 0
  }

  /** A drop or a file-input change: `onFiles`. */
  function Drop(p: Page, files: seq<FileHandle>, ids: seq<Id>): (r: Page)
    requires |ids| >= |files|
    ensures |p.selected| <= |r.selected| && r.selected[..|p.selected|] == p.selected
    ensures Bounded(p.selected) ==> Bounded(r.selected)
    ensures r.busy == p.busy && r.notice == p.notice && r.inFlight == p.inFlight
  {
    var s := OnFiles(|p.selected|, p.selected, files, ids);
    assert Bounded(p.selected) ==> Bounded(s) by {
      if Bounded(p.selected) {
        forall k | 0 <= k < |s|
          ensures s[k].file.size <= MAX_SIZE_BYTES
        {
          if k < |p.selected| {
            assert s[k] == s[..|p.selected|][k];
          }
        }
      }
    }
    p.(selected := s)
  }

  /** A remove button: `removeOne(id)`. Every entry with that id leaves,
      the others stay in order; it works also while an upload is pending. */
  function RemoveOne(p: Page, id: Id): (r: Page)
    ensures forall e :: e in r.selected <==> e in p.selected && e.id != id
    ensures IsSubsequence(r.selected, p.selected)
    ensures r.busy == p.busy && r.notice == p.notice && r.inFlight == p.inFlight
  {
    p.(selected := RemoveFile(p.selected, id))
  }

  /** A metadata control's `onChange`: `updateMeta(id, field, value)`. */
  function Edit(p: Page, id: Id, f: Field, v: string): (r: Page)
    ensures |r.selected| == |p.selected|
    ensures forall k :: 0 <= k < |p.selected| && p.selected[k].id == id ==>
      Get(r.selected[k], f) == v && DiffersOnlyIn(r.selected[k], p.selected[k], f)
    ensures forall k :: 0 <= k < |p.selected| && p.selected[k].id != id ==> r.selected[k] == p.selected[k]
    ensures r.busy == p.busy && r.notice == p.notice && r.inFlight == p.inFlight
  {
    p.(selected := UpdateAll(p.selected, id, f, v))
  }

  /** The synchronous part of `handleSubmit`: nothing on an empty store,
      else busy, the notice cleared, and one request carrying
      `FormParts(p.selected)` goes out. */
  function Begin(p: Page): Page
  {
    if |p.selected| == 0 then p
    else p.(busy := true, notice := NoNotice, inFlight := p.inFlight + 1)
  }

  /** The part of `handleSubmit` after `fetch` settles: on `res.ok` the
      store is emptied and the success notice set; a non-ok status throws
      into the same `catch` as a transport error and sets the failure
      notice; `finally` clears `busy`. */
  function Settle(p: Page, resp: Response): Page
    requires p.inFlight > 0
  {
    var q := if IsOk(resp) then p.(selected := [], notice := Uploaded) else p.(notice := Failed);
    q.(busy := false, inFlight := p.inFlight - 1)
  }

  /** One `handleSubmit` run to completion: an empty store means no request
      and no change; success empties the store with the success notice;
      failure keeps the store with the failure notice; afterwards the page
      is not busy and the button is disabled exactly when the store is
      empty. */
  function HandleSubmit(p: Page, resp: Response): (r: Page)
    ensures |p.selected| == 0 ==> r == p
    ensures |p.selected| > 0 && IsOk(resp) ==> r.selected == [] && r.notice == Uploaded
    ensures |p.selected| > 0 && !IsOk(resp) ==> r.selected == p.selected && r.notice == Failed
    ensures |p.selected| > 0 ==> !r.busy && r.inFlight == p.inFlight
    ensures |p.selected| > 0 ==> (Disabled(r) <==> |r.selected| == 0)
  {
    if |p.selected| == 0 then p else Settle(Begin(p), resp)
  }

  /** A click reaches `handleSubmit` only while the button is enabled. */
  function Click(p: Page): (r: Page)
    ensures Disabled(p) ==> r == p
    ensures !Disabled(p) ==> r.busy && r.inFlight == p.inFlight + 1 && r.notice == NoNotice
    ensures r.selected == p.selected
  {
    if Disabled(p) then p else Begin(p)
  }

  datatype Event =
    | DropEvent(files: seq<FileHandle>, ids: seq<Id>)
    | RemoveEvent(id: Id)
    | EditEvent(id: Id, field: Field, value: string)
    | ClickEvent
    | ReplyEvent(resp: Response)

  /** One event. A reply arrives only for a pending request, and the id
      oracle supplies an id for every candidate of a pick (an event without
      enough ids cannot arise and is ignored). */
  function Step(p: Page, e: Event): Page
  {
    match e
    case DropEvent(files, ids) => if |ids| >= |files| then Drop(p, files, ids) else p
    case RemoveEvent(id) => RemoveOne(p, id)
    case EditEvent(id, f, v) => Edit(p, id, f, v)
    case ClickEvent => Click(p)
    case ReplyEvent(resp) => if p.inFlight > 0 then Settle(p, resp) else p
  }

  function Run(p: Page, es: seq<Event>): Page
    decreases |es|
  {
    if |es| == 0 then p else Run(Step(p, es[0]), es[1..])
  }

  /** What the page keeps: the store bounds, at most one upload pending,
      and `busy` exactly while one is. */
  ghost predicate Inv(p: Page)
  {
    Bounded(p.selected) && p.inFlight <= 1 && (p.busy <==> p.inFlight == 1)
  }

  lemma StepKeepsInv(p: Page, e: Event)
    requires Inv(p)
    ensures Inv(Step(p, e))
  {
    match e
    case RemoveEvent(id) => RemoveFileKeepsBounded(p.selected, id);
    case EditEvent(id, f, v) =>
      forall k | 0 <= k < |p.selected|
        ensures Edit(p, id, f, v).selected[k].file == p.selected[k].file
      {
      }
    case DropEvent(files, ids) =>
    case ClickEvent =>
    case ReplyEvent(resp) =>
  }

  /** Because `busy` feeds the button's `disabled`, from the initial page
      (or any page keeping the invariant) no event sequence ever has two
      uploads pending, and the store stays within its bounds. */
  lemma {:induction false} RunKeepsInv(p: Page, es: seq<Event>)
    requires Inv(p)
    ensures Inv(Run(p, es))
    decreases |es|
  {
    if |es| > 0 {
      StepKeepsInv(p, es[0]);
      RunKeepsInv(Step(p, es[0]), es[1..]);
    }
  }

  lemma RunTwo(p: Page, e1: Event, e2: Event)
    ensures Run(p, [e1, e2]) == Step(Step(p, e1), e2)
  {
    var q := Step(Step(p, e1), e2);
    assert Run(q, []) == q;
    assert Run(Step(p, e1), [e2]) == q by {
      assert [e2][0] == e2 && [e2][1..] == [];
    }
    assert [e1, e2][0] == e1 && [e1, e2][1..] == [e2];
  }

  /** A successful reply to the pending upload empties the store. */
  lemma SuccessfulReplyEmpties(p: Page, resp: Response)
    requires p.inFlight > 0 && IsOk(resp)
    ensures Step(p, ReplyEvent(resp)).selected == []
    ensures Step(p, ReplyEvent(resp)).notice == Uploaded
    ensures !Step(p, ReplyEvent(resp)).busy
  {
  }

  /** `setSelected([])` on success clears the whole store. A drop while an
      upload is pending still stages its files (a small first candidate on
      a store below the cap makes the store grow), and the successful reply
      then discards them although they were never sent. */
  lemma SuccessDropsFilesAddedMidFlight(p: Page, files: seq<FileHandle>, ids: seq<Id>, resp: Response)
    requires p.inFlight > 0 && |ids| >= |files| && IsOk(resp)
    ensures |p.selected| < MAX_FILES && |files| > 0 && files[0].size <= MAX_SIZE_BYTES ==>
      |Step(p, DropEvent(files, ids)).selected| > |p.selected|
    ensures Run(p, [DropEvent(files, ids), ReplyEvent(resp)]).selected == []
  {
    var q := Step(p, DropEvent(files, ids));
    var n := |p.selected|;
    if n < MAX_FILES && |files| > 0 && files[0].size <= MAX_SIZE_BYTES {
      var batch := files[..Min(|files|, MAX_FILES - n)];
      assert files[0] == batch[0];
      assert files[0] in WithinLimit(batch);
      assert |Handles(q.selected[n..])| > 0;
    }
    RunTwo(p, DropEvent(files, ids), ReplyEvent(resp));
    SuccessfulReplyEmpties(q, resp);
  }
}
