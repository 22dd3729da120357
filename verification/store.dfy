/** The file staging store shared by app.js (`selectedFiles`) and
    pages/upload.js (`selected`): an ordered sequence of staged files with
    editable metadata, and the operations both pages perform on it. */
module Store {
  import opened Text
  import opened FileNames
  import opened Catalog

  const MAX_FILES: nat := 50
  const MAX_SIZE_BYTES: nat := 100 * 1024 * 1024

  /** A `crypto.randomUUID()` value. */
  type Id = string

  /** The browser `File` an entry owns; the store only reads its name and
      byte size. */
  datatype FileHandle = FileHandle(name: string, size: nat)

  datatype StagedFile = StagedFile(
    id: Id,
    file: FileHandle,
    category: string,
    priority: string,
    hierarchy: string,
    sapModule: string,
    contentType: string,
    documentTitle: string,
    documentAuthor: string)

  /** The seven metadata fields the pages' controls write. */
  datatype Field =
    | Category | Priority | Hierarchy | SapModule | ContentType
    | DocumentTitle | DocumentAuthor

  function Get(e: StagedFile, f: Field): string
  {
    match f
    case Category => e.category
    case Priority => e.priority
    case Hierarchy => e.hierarchy
    case SapModule => e.sapModule
    case ContentType => e.contentType
    case DocumentTitle => e.documentTitle
    case DocumentAuthor => e.documentAuthor
  }

  /** `f[field] = value` (app.js) and `{ ...x, [field]: value }`
      (pages/upload.js): the field reads back as `v`, the id, the file and
      every other field are untouched. */
  function SetField(e: StagedFile, f: Field, v: string): (r: StagedFile)
    ensures Get(r, f) == v
    ensures r.id == e.id && r.file == e.file
    ensures forall g :: g != f ==> Get(r, g) == Get(e, g)
  {
    match f
    case Category => e.(category := v)
    case Priority => e.(priority := v)
    case Hierarchy => e.(hierarchy := v)
    case SapModule => e.(sapModule := v)
    case ContentType => e.(contentType := v)
    case DocumentTitle => e.(documentTitle := v)
    case DocumentAuthor => e.(documentAuthor := v)
  }

  /** `a` is `b` with at most field `f` changed. */
  ghost predicate DiffersOnlyIn(a: StagedFile, b: StagedFile, f: Field)
  {
    a.id == b.id && a.file == b.file && forall g :: g != f ==> Get(a, g) == Get(b, g)
  }

  /** A value the page's control for `f` can produce: one of the catalog's
      options for the five selectors, any text for the two inputs. */
  predicate ValidValue(f: Field, v: string)
  {
    match f
    case Category => v in Categories
    case Priority => v in Priorities
    case Hierarchy => v in Hierarchies
    case SapModule => v in SapModules
    case ContentType => v in ContentTypes
    case DocumentTitle => true
    case DocumentAuthor => true
  }

  /** Each selector field holds one of its catalog's values. */
  predicate WellFormed(e: StagedFile)
  {
    && e.category in Categories && e.priority in Priorities && e.hierarchy in Hierarchies
    && e.sapModule in SapModules && e.contentType in ContentTypes
  }

  function Min(a: int, b: int): int
  {
    if a <= b then a else b
  }

  // ---------------------------------------------------------------------
  // Adding files
  // ---------------------------------------------------------------------

  /** The record built for a surviving candidate: the category inferred
      from the name, the catalog's baseline values, the name without its
      extension as title and an empty author. */
  function NewEntry(v: Variant, f: FileHandle, id: Id): (e: StagedFile)
    ensures e.id == id && e.file == f
    ensures e.category == DefaultCategory(v, f.name) && e.category != "Other"
    ensures e.priority == "Medium" && e.hierarchy == "Level 1"
    ensures e.sapModule == "Other" && e.contentType == "Other"
    ensures e.documentTitle == Title(f.name) && e.documentTitle <= f.name
    ensures e.documentAuthor == ""
  {
    StagedFile(id, f, DefaultCategory(v, f.name), "Medium", "Level 1", "Other", "Other", Title(f.name), "")
  }

  /** The candidates that pass the size check, in batch order. */
  function WithinLimit(files: seq<FileHandle>): (r: seq<FileHandle>)
    ensures |r| <= |files|
    ensures forall f :: f in r <==> f in files && f.size <= MAX_SIZE_BYTES
  {
    if |files| == 0 then []
    else (if files[0].size <= MAX_SIZE_BYTES then [files[0]] else []) + WithinLimit(files[1..])
  }

  lemma {:induction false} WithinLimitKeepsSmallBatch(files: seq<FileHandle>)
    requires forall k :: 0 <= k < |files| ==> files[k].size <= MAX_SIZE_BYTES
    ensures WithinLimit(files) == files
  {
    if |files| > 0 {
      WithinLimitKeepsSmallBatch(files[1..]);
    }
  }

  function Handles(s: seq<StagedFile>): (r: seq<FileHandle>)
    ensures |r| == |s|
    ensures forall k :: 0 <= k < |s| ==> r[k] == s[k].file
  {
    seq(|s|, k requires 0 <= k < |s| => s[k].file)
  }

  lemma HandlesCons(e: StagedFile, t: seq<StagedFile>)
    ensures Handles([e] + t) == [e.file] + Handles(t)
  {
    assert forall k :: 1 <= k < |t| + 1 ==> ([e] + t)[k] == t[k - 1];
  }

  /** The loop of `addFiles` / `onFiles`: oversize candidates are skipped,
      every survivor becomes a new entry, in order, and the k-th survivor
      takes the k-th id the oracle hands out. */
  function Stage(v: Variant, files: seq<FileHandle>, ids: seq<Id>): (r: seq<StagedFile>)
    requires |ids| >= |files|
    ensures |r| <= |files|
    ensures Handles(r) == WithinLimit(files)
    ensures forall k :: 0 <= k < |r| ==> r[k] == NewEntry(v, r[k].file, ids[k])
    decreases |files|
  {
    if |files| == 0 then []
    else if files[0].size > MAX_SIZE_BYTES then
      assert WithinLimit(files) == WithinLimit(files[1..]);
      Stage(v, files[1..], ids)
    else
      var rest := Stage(v, files[1..], ids[1..]);
      var r := [NewEntry(v, files[0], ids[0])] + rest;
      HandlesCons(NewEntry(v, files[0], ids[0]), rest);
      r
  }

  /** The length of `files.slice(0, end)` for an array of length `len`:
      a negative `end` counts back from the end. */
  function SliceEnd(len: nat, end: int): (n: nat)
    ensures n <= len
    ensures 0 <= end ==> n == Min(len, end)
    ensures end < 0 ==> n + Min(len, -end) == len
  {
    if end < 0 then (if len + end < 0 then 0 else len + end)
    else if end > len then len
    else end
  }

  /** How many candidates of a batch of `incoming` survive the count cap
      when the store holds `current` entries: all of them if they fit,
      else the first `MAX_FILES - current`. */
  function Room(current: nat, incoming: nat): (n: nat)
    ensures n <= incoming
    ensures current <= MAX_FILES ==> n == Min(incoming, MAX_FILES - current)
  {
    var over := current + incoming - MAX_FILES;
    if over > 0 then SliceEnd(incoming, incoming - over) else incoming
  }

  /** `addFiles(files)` of app.js. The old store is an unchanged prefix; a
      store within the cap stays within it; the appended entries are the
      batch's first `MAX_FILES - |store|` candidates (the cap cuts the
      batch before the size check) that are at most `MAX_SIZE_BYTES`, in
      batch order, each a new entry with the oracle's ids in order. */
  function AddFiles(store: seq<StagedFile>, files: seq<FileHandle>, ids: seq<Id>): (r: seq<StagedFile>)
    requires |ids| >= |files|
    ensures |store| <= |r| && r[..|store|] == store
    ensures |store| <= MAX_FILES ==> |r| <= MAX_FILES
    ensures |store| <= MAX_FILES ==>
      Handles(r[|store|..]) == WithinLimit(files[..Min(|files|, MAX_FILES - |store|)])
    ensures |r| <= |store| + |files|
    ensures forall k :: |store| <= k < |r| ==>
      r[k].file.size <= MAX_SIZE_BYTES && r[k] == NewEntry(Vanilla, r[k].file, ids[k - |store|])
  {
    var added := Stage(Vanilla, files[..Room(|store|, |files|)], ids);
    assert (store + added)[|store|..] == added;
    forall k | 0 <= k < |added|
      ensures added[k].file.size <= MAX_SIZE_BYTES
    {
      assert added[k].file == Handles(added)[k];
      assert Handles(added)[k] in WithinLimit(files[..Room(|store|, |files|)]);
    }
    store + added
  }

  /** `onFiles(files)` of pages/upload.js. The cap is computed from the
      length `closedLength` the callback closed over, the append goes onto
      the current store `cur`; with the two equal it behaves as `AddFiles`
      with the lastIndexOf extension rule. */
  function OnFiles(closedLength: nat, cur: seq<StagedFile>, files: seq<FileHandle>, ids: seq<Id>): (r: seq<StagedFile>)
    requires |ids| >= |files|
    ensures |cur| <= |r| && r[..|cur|] == cur
    ensures closedLength == |cur| && |cur| <= MAX_FILES ==> |r| <= MAX_FILES
    ensures closedLength <= MAX_FILES ==>
      Handles(r[|cur|..]) == WithinLimit(files[..Min(|files|, MAX_FILES - closedLength)])
    ensures |r| <= |cur| + |files|
    ensures forall k :: |cur| <= k < |r| ==>
      r[k].file.size <= MAX_SIZE_BYTES && r[k] == NewEntry(React, r[k].file, ids[k - |cur|])
  {
    var added := Stage(React, files[..Room(closedLength, |files|)], ids);
    assert (cur + added)[|cur|..] == added;
    forall k | 0 <= k < |added|
      ensures added[k].file.size <= MAX_SIZE_BYTES
    {
      assert added[k].file == Handles(added)[k];
      assert Handles(added)[k] in WithinLimit(files[..Room(closedLength, |files|)]);
    }
    cur + added
  }

  // ---------------------------------------------------------------------
  // Removing files
  // ---------------------------------------------------------------------

  /** `a` is `b` with some elements left out, the rest in order. */
  predicate IsSubsequence<T(==)>(a: seq<T>, b: seq<T>)
  {
    if |a| == 0 then true
    else if |b| == 0 then false
    else if a[0] == b[0] then IsSubsequence(a[1..], b[1..])
    else IsSubsequence(a, b[1..])
  }

  /** `removeFile(id)` (app.js) and `removeOne(id)` (pages/upload.js): a
      filter on the id. The result keeps, in order, exactly the entries
      whose id differs; an absent id leaves the store as it was. */
  function RemoveFile(s: seq<StagedFile>, id: Id): (r: seq<StagedFile>)
    ensures forall e :: e in r <==> e in s && e.id != id
    ensures IsSubsequence(r, s)
    ensures (forall k :: 0 <= k < |s| ==> s[k].id != id) ==> r == s
  {
    if |s| == 0 then []
    else if s[0].id == id then RemoveFile(s[1..], id)
    else
      assert s == [s[0]] + s[1..];
      [s[0]] + RemoveFile(s[1..], id)
  }

  lemma {:induction false} RemoveFileAppend(a: seq<StagedFile>, b: seq<StagedFile>, id: Id)
    ensures RemoveFile(a + b, id) == RemoveFile(a, id) + RemoveFile(b, id)
    decreases |a|
  {
    if |a| == 0 {
      assert a + b == b;
    } else {
      assert (a + b)[0] == a[0];
      assert (a + b)[1..] == a[1..] + b;
      RemoveFileAppend(a[1..], b, id);
    }
  }

  predicate UniqueIds(s: seq<StagedFile>)
  {
    forall i, j :: 0 <= i < j < |s| ==> s[i].id != s[j].id
  }

  /** The Escape handler of app.js: with a non-empty store, remove the
      entries carrying the last entry's id. */
  function RemoveLast(s: seq<StagedFile>): seq<StagedFile>
  {
    if |s| == 0 then s else RemoveFile(s, s[|s| - 1].id)
  }

  /** With unique ids, Escape drops exactly the last entry. */
  lemma RemoveLastDropsLast(s: seq<StagedFile>)
    requires UniqueIds(s)
    ensures |s| > 0 ==> RemoveLast(s) == s[..|s| - 1]
    ensures |s| == 0 ==> RemoveLast(s) == s
  {
    if |s| > 0 {
      var n := |s|;
      var id := s[n - 1].id;
      assert s == s[..n - 1] + [s[n - 1]];
      RemoveFileAppend(s[..n - 1], [s[n - 1]], id);
      assert RemoveFile([s[n - 1]], id) == [];
    }
  }

  /** One small file added to a store below the cap is appended as one
      entry, holding that file. */
  lemma AddOneSmallFile(store: seq<StagedFile>, f: FileHandle, x: Id)
    requires |store| < MAX_FILES && f.size <= MAX_SIZE_BYTES
    ensures |AddFiles(store, [f], [x])| == |store| + 1
    ensures AddFiles(store, [f], [x])[|store|].file == f
  {
    var r := AddFiles(store, [f], [x]);
    var n := |store|;
    assert Handles(r[n..]) == [f] by {
      WithinLimitKeepsSmallBatch([f]);
      assert [f][..Min(1, MAX_FILES - n)] == [f];
    }
  }

  /** Removing a just-added entry by its fresh id restores the store. */
  lemma AddThenRemoveRestores(store: seq<StagedFile>, f: FileHandle, x: Id)
    requires |store| < MAX_FILES && f.size <= MAX_SIZE_BYTES
    requires forall k :: 0 <= k < |store| ==> store[k].id != x
    ensures |AddFiles(store, [f], [x])| == |store| + 1
    ensures RemoveFile(AddFiles(store, [f], [x]), x) == store
  {
    var r := AddFiles(store, [f], [x]);
    var n := |store|;
    AddOneSmallFile(store, f, x);
    assert r == store + [r[n]] by {
      assert r[..n] == store;
    }
    assert r[n].id == x;
    RemoveFileAppend(store, [r[n]], x);
  }

  // ---------------------------------------------------------------------
  // Editing metadata
  // ---------------------------------------------------------------------

  /** `k` is the first position holding `id`. */
  ghost predicate IsFirst(s: seq<StagedFile>, id: Id, k: int)
  {
    0 <= k < |s| && s[k].id == id && forall j :: 0 <= j < k ==> s[j].id != id
  }

  /** `updateMeta` of app.js (`find`, then assign): only the first entry
      with that id changes, and only in `f`; an unknown id is a no-op. */
  function UpdateFirst(s: seq<StagedFile>, id: Id, f: Field, v: string): (r: seq<StagedFile>)
    ensures |r| == |s|
    ensures forall k :: 0 <= k < |s| && !IsFirst(s, id, k) ==> r[k] == s[k]
    ensures forall k :: IsFirst(s, id, k) ==> Get(r[k], f) == v && DiffersOnlyIn(r[k], s[k], f)
    ensures (forall k :: 0 <= k < |s| ==> s[k].id != id) ==> r == s
  {
    if |s| == 0 then []
    else if s[0].id == id then [SetField(s[0], f, v)] + s[1..]
    else
      var rest := UpdateFirst(s[1..], id, f, v);
      assert forall k :: 1 <= k < |s| ==> (IsFirst(s, id, k) <==> IsFirst(s[1..], id, k - 1));
      [s[0]] + rest
  }

  /** `updateMeta` of pages/upload.js (`map`): length and ids are kept,
      entries with another id are unchanged, entries with that id change
      in `f` only. */
  function UpdateAll(s: seq<StagedFile>, id: Id, f: Field, v: string): (r: seq<StagedFile>)
    ensures |r| == |s|
    ensures forall k :: 0 <= k < |s| ==> r[k].id == s[k].id
    ensures forall k :: 0 <= k < |s| && s[k].id != id ==> r[k] == s[k]
    ensures forall k :: 0 <= k < |s| && s[k].id == id ==> Get(r[k], f) == v && DiffersOnlyIn(r[k], s[k], f)
  {
    seq(|s|, k requires 0 <= k < |s| => if s[k].id == id then SetField(s[k], f, v) else s[k])
  }

  /** With unique ids the two `updateMeta`s are the same operation. */
  lemma UpdatesAgreeOnUniqueIds(s: seq<StagedFile>, id: Id, f: Field, v: string)
    requires UniqueIds(s)
    ensures UpdateFirst(s, id, f, v) == UpdateAll(s, id, f, v)
  {
    var a := UpdateFirst(s, id, f, v);
    var b := UpdateAll(s, id, f, v);
    forall k | 0 <= k < |s|
      ensures a[k] == b[k]
    {
      if s[k].id == id {
        assert IsFirst(s, id, k);
        assert a[k] == SetField(s[k], f, v) by {
          EqualByFields(a[k], SetField(s[k], f, v));
        }
        assert b[k] == SetField(s[k], f, v) by {
          EqualByFields(b[k], SetField(s[k], f, v));
        }
      }
    }
  }

  /** Entries agreeing on id, file and all seven fields are equal. */
  lemma EqualByFields(a: StagedFile, b: StagedFile)
    requires a.id == b.id && a.file == b.file
    requires forall g :: Get(a, g) == Get(b, g)
    ensures a == b
  {
    assert Get(a, Category) == Get(b, Category);
    assert Get(a, Priority) == Get(b, Priority);
    assert Get(a, Hierarchy) == Get(b, Hierarchy);
    assert Get(a, SapModule) == Get(b, SapModule);
    assert Get(a, ContentType) == Get(b, ContentType);
    assert Get(a, DocumentTitle) == Get(b, DocumentTitle);
    assert Get(a, DocumentAuthor) == Get(b, DocumentAuthor);
  }
}
