/** Properties of the staging store that relate several operations or hold
    across them: the count and size bounds, id uniqueness under the
    fresh-id assumption, and worked examples of the cap. */
module StoreProperties {
  import opened FileNames
  import opened Catalog
  import opened Store

  /** The bounds every reachable store keeps: at most `MAX_FILES` entries,
      none larger than `MAX_SIZE_BYTES`. */
  predicate Bounded(s: seq<StagedFile>)
  {
    |s| <= MAX_FILES && forall k :: 0 <= k < |s| ==> s[k].file.size <= MAX_SIZE_BYTES
  }

  /** Ids drawn from the oracle are distinct from each other and from every
      id already in the store (`crypto.randomUUID` is assumed never to
      repeat). */
  predicate FreshIds(store: seq<StagedFile>, ids: seq<Id>)
  {
    && (forall i, j :: 0 <= i < j < |ids| ==> ids[i] != ids[j])
    && (forall i, k :: 0 <= i < |ids| && 0 <= k < |store| ==> ids[i] != store[k].id)
  }

  lemma AddFilesKeepsBounded(store: seq<StagedFile>, files: seq<FileHandle>, ids: seq<Id>)
    requires |ids| >= |files| && Bounded(store)
    ensures Bounded(AddFiles(store, files, ids))
  {
    var r := AddFiles(store, files, ids);
    forall k | 0 <= k < |r|
      ensures r[k].file.size <= MAX_SIZE_BYTES
    {
      if k < |store| {
        assert r[k] == r[..|store|][k];
      }
    }
  }

  /** With fresh ids, adding keeps every id in the store distinct. */
  lemma AddFilesKeepsIdsUnique(store: seq<StagedFile>, files: seq<FileHandle>, ids: seq<Id>)
    requires |ids| >= |files|
    requires UniqueIds(store) && FreshIds(store, ids)
    ensures UniqueIds(AddFiles(store, files, ids))
  {
    var r := AddFiles(store, files, ids);
    var n := |store|;
    forall i, j | 0 <= i < j < |r|
      ensures r[i].id != r[j].id
    {
      assert r[..n] == store;
      if j < n {
        assert r[i] == store[i] && r[j] == store[j];
      } else if i < n {
        assert r[i] == store[i] && r[j].id == ids[j - n];
      } else {
        assert r[i].id == ids[i - n] && r[j].id == ids[j - n];
      }
    }
  }

  lemma {:induction false} RemoveFileKeepsIdsUnique(s: seq<StagedFile>, id: Id)
    requires UniqueIds(s)
    ensures UniqueIds(RemoveFile(s, id))
    decreases |s|
  {
    if |s| > 0 {
      RemoveFileKeepsIdsUnique(s[1..], id);
      var rest := RemoveFile(s[1..], id);
      if s[0].id != id {
        var r := [s[0]] + rest;
        assert RemoveFile(s, id) == r;
        forall i, j | 0 <= i < j < |r|
          ensures r[i].id != r[j].id
        {
          if i == 0 {
            assert r[j] in rest;
            assert r[j] in s[1..];
            var m :| 0 <= m < |s[1..]| && s[1..][m] == r[j];
            assert s[m + 1] == r[j];
          } else {
            assert r[i] == rest[i - 1] && r[j] == rest[j - 1];
          }
        }
      }
    }
  }

  lemma RemoveFileKeepsBounded(s: seq<StagedFile>, id: Id)
    requires Bounded(s)
    ensures Bounded(RemoveFile(s, id))
  {
    var r := RemoveFile(s, id);
    SubsequenceIsShorter(r, s);
    forall k | 0 <= k < |r|
      ensures r[k].file.size <= MAX_SIZE_BYTES
    {
      assert r[k] in s;
    }
  }

  lemma {:induction false} SubsequenceIsShorter<T>(a: seq<T>, b: seq<T>)
    requires IsSubsequence(a, b)
    ensures |a| <= |b|
    decreases |b|
  {
    if |a| > 0 {
      if a[0] == b[0] {
        SubsequenceIsShorter(a[1..], b[1..]);
      } else {
        SubsequenceIsShorter(a, b[1..]);
      }
    }
  }

  lemma UpdateFirstKeepsIdsAndBounds(s: seq<StagedFile>, id: Id, f: Field, v: string)
    ensures forall k :: 0 <= k < |s| ==>
      UpdateFirst(s, id, f, v)[k].id == s[k].id && UpdateFirst(s, id, f, v)[k].file == s[k].file
    ensures UniqueIds(s) ==> UniqueIds(UpdateFirst(s, id, f, v))
    ensures Bounded(s) ==> Bounded(UpdateFirst(s, id, f, v))
  {
  }

  /** A new entry's selector fields come from the catalogs. */
  lemma NewEntryIsWellFormed(v: Variant, f: FileHandle, id: Id)
    ensures WellFormed(NewEntry(v, f, id))
  {
    assert Priorities[1] == "Medium" && Hierarchies[0] == "Level 1";
    assert SapModules[10] == "Other" && ContentTypes[9] == "Other";
  }

  /** Adding keeps every entry's selector fields inside their catalogs. */
  lemma AddFilesKeepsWellFormed(store: seq<StagedFile>, files: seq<FileHandle>, ids: seq<Id>)
    requires |ids| >= |files|
    requires forall k :: 0 <= k < |store| ==> WellFormed(store[k])
    ensures forall k :: 0 <= k < |AddFiles(store, files, ids)| ==> WellFormed(AddFiles(store, files, ids)[k])
  {
    var r := AddFiles(store, files, ids);
    forall k | 0 <= k < |r|
      ensures WellFormed(r[k])
    {
      if k < |store| {
        assert r[k] == r[..|store|][k];
      } else {
        NewEntryIsWellFormed(Vanilla, r[k].file, ids[k - |store|]);
      }
    }
  }

  lemma SetFieldKeepsWellFormed(e: StagedFile, f: Field, v: string)
    requires WellFormed(e) && ValidValue(f, v)
    ensures WellFormed(SetField(e, f, v))
  {
  }

  /** Editing with a value its control offers keeps every selector field
      inside its catalog. */
  lemma UpdateFirstKeepsWellFormed(s: seq<StagedFile>, id: Id, f: Field, v: string)
    requires ValidValue(f, v)
    requires forall k :: 0 <= k < |s| ==> WellFormed(s[k])
    ensures forall k :: 0 <= k < |s| ==> WellFormed(UpdateFirst(s, id, f, v)[k])
  {
    var r := UpdateFirst(s, id, f, v);
    forall k | 0 <= k < |s|
      ensures WellFormed(r[k])
    {
      if IsFirst(s, id, k) {
        SetFieldKeepsWellFormed(s[k], f, v);
        EqualByFields(r[k], SetField(s[k], f, v));
      }
    }
  }

  /** When every candidate is small, the appended entries hold exactly
      the first candidates that fit under the cap, in batch order. */
  lemma SmallBatchFits(store: seq<StagedFile>, files: seq<FileHandle>, ids: seq<Id>)
    requires |ids| >= |files| && |store| <= MAX_FILES
    requires forall k :: 0 <= k < |files| ==> files[k].size <= MAX_SIZE_BYTES
    ensures Handles(AddFiles(store, files, ids)[|store|..]) == files[..Min(|files|, MAX_FILES - |store|)]
  {
    WithinLimitKeepsSmallBatch(files[..Min(|files|, MAX_FILES - |store|)]);
  }

  /** Sixty small candidates on an empty store: exactly the first fifty
      are staged, in order. */
  lemma SixtyCandidatesStageFirstFifty(files: seq<FileHandle>, ids: seq<Id>)
    requires |files| == 60 && |ids| >= 60
    requires forall k :: 0 <= k < 60 ==> files[k].size <= MAX_SIZE_BYTES
    ensures |AddFiles([], files, ids)| == MAX_FILES
    ensures Handles(AddFiles([], files, ids)) == files[..MAX_FILES]
  {
    var r := AddFiles([], files, ids);
    SmallBatchFits([], files, ids);
    assert r[0..] == r;
  }

  /** The cap cuts the batch before the size check: with an oversize first
      candidate, sixty candidates stage only forty-nine entries, although
      fifty of the sixty would fit. */
  lemma CapCountsOversizeCandidates(files: seq<FileHandle>, ids: seq<Id>)
    requires |files| == 60 && |ids| >= 60
    requires files[0].size > MAX_SIZE_BYTES
    requires forall k :: 1 <= k < 60 ==> files[k].size <= MAX_SIZE_BYTES
    ensures |AddFiles([], files, ids)| == MAX_FILES - 1
  {
    var r := AddFiles([], files, ids);
    var batch := files[..MAX_FILES];
    assert batch[1..] == files[1..MAX_FILES];
    WithinLimitKeepsSmallBatch(files[1..MAX_FILES]);
    assert WithinLimit(batch) == WithinLimit(batch[1..]);
    assert r[0..] == r;
  }

  /** Why the count bound of `OnFiles` needs the closed-over length to be
      the current one: a callback that still sees an empty store appends
      to a full one. */
  lemma StaleLengthOverfills(cur: seq<StagedFile>, f: FileHandle, x: Id)
    requires |cur| == MAX_FILES && f.size <= MAX_SIZE_BYTES
    ensures |OnFiles(0, cur, [f], [x])| == MAX_FILES + 1
  {
    WithinLimitKeepsSmallBatch([f]);
    assert [f][..1] == [f];
    var r := OnFiles(0, cur, [f], [x]);
    assert |Handles(r[|cur|..])| == 1;
  }

  /** `files.slice(0, negative)` counts from the end, so a store that were
      already over the cap would still grow: the count bound of `AddFiles`
      needs the store to start within the cap. */
  lemma OverfullStoreStillGrows(store: seq<StagedFile>, files: seq<FileHandle>, ids: seq<Id>)
    requires |store| == 60 && |files| == 20 && |ids| >= 20
    requires forall k :: 0 <= k < 20 ==> files[k].size <= MAX_SIZE_BYTES
    ensures |AddFiles(store, files, ids)| == 70
  {
    assert Room(60, 20) == 10;
    WithinLimitKeepsSmallBatch(files[..10]);
    assert |Stage(Vanilla, files[..10], ids)| == |Handles(Stage(Vanilla, files[..10], ids))|;
  }
}
