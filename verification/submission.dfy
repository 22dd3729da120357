/** The round trip of `handleSubmit` that both pages share: the multipart
    body built from the store, and the classification of the response. */
module Submission {
  import opened Wrappers
  import opened Store

  /** What `fetch` delivers: a response with its HTTP status, or a
      transport error (the promise rejects). */
  datatype Response = Response(status: int) | NetworkError

  /** `res.ok`: a status in 200..299. */
  predicate IsOk(r: Response)
  {
    r.Response? && 200 <= r.status <= 299
  }

  /** The user-visible outcome pages/upload.js keeps in `msg`. */
  datatype Notice = NoNotice | Uploaded | Failed

  /** The seven metadata values serialised into one `meta_<id>` part. */
  datatype Metadata = Metadata(
    category: string, priority: string, hierarchy: string, sapModule: string,
    contentType: string, documentTitle: string, documentAuthor: string)

  datatype Part =
    | FilePart(file: FileHandle)
    | MetaPart(key: string, meta: Metadata)

  const MetaPrefix: string := "meta_"

  function MetadataOf(e: StagedFile): Metadata
  {
    Metadata(e.category, e.priority, e.hierarchy, e.sapModule, e.contentType, e.documentTitle, e.documentAuthor)
  }

  /** The form body: for every entry, in store order, a `files` part with
      its file and a `meta_<id>` part with its metadata. */
  function FormParts(s: seq<StagedFile>): (parts: seq<Part>)
    ensures |parts| == 2 * |s|
    ensures forall k :: 0 <= k < |s| ==> parts[2 * k] == FilePart(s[k].file)
    ensures forall k :: 0 <= k < |s| ==> parts[2 * k + 1].MetaPart? && parts[2 * k + 1].key == MetaPrefix + s[k].id
  {
    if |s| == 0 then []
    else
      var rest := FormParts(s[1..]);
      var parts := [FilePart(s[0].file), MetaPart(MetaPrefix + s[0].id, MetadataOf(s[0]))] + rest;
      parts
  }

  /** What a receiver reconstructs from a form body: one entry per file
      part followed by its metadata part, or `None` for a body of any other
      shape. */
  function ReadBack(parts: seq<Part>): Option<seq<StagedFile>>
    decreases |parts|
  {
    if |parts| == 0 then Some([])
    else if |parts| >= 2 && parts[0].FilePart? && parts[1].MetaPart?
      && MetaPrefix <= parts[1].key
    then
      var m := parts[1].meta;
      var e := StagedFile(parts[1].key[|MetaPrefix|..], parts[0].file, m.category, m.priority,
                          m.hierarchy, m.sapModule, m.contentType, m.documentTitle, m.documentAuthor);
      match ReadBack(parts[2..])
      case Some(rest) => Some([e] + rest)
      case None => None
    else None
  }

  /** The body carries the whole store: every entry, with its id, file and
      metadata, is recovered from it in order. */
  lemma {:induction false} ReadBackFormParts(s: seq<StagedFile>)
    ensures ReadBack(FormParts(s)) == Some(s)
    decreases |s|
  {
    if |s| > 0 {
      var parts := FormParts(s);
      assert parts[2..] == FormParts(s[1..]);
      ReadBackFormParts(s[1..]);
      assert (MetaPrefix + s[0].id)[|MetaPrefix|..] == s[0].id;
      assert [s[0]] + s[1..] == s;
    }
  }
}
