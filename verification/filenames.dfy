/** What the two upload pages read off a file name: its extension (computed
    differently by app.js and pages/upload.js) and the default document
    title. */
module FileNames {
  import opened Text

  /** The page whose extension rule applies: app.js (`Vanilla`) splits on
      '.', pages/upload.js (`React`) uses `lastIndexOf`. */
  datatype Variant = Vanilla | React

  /** `name.split('.').pop()?.toLowerCase() || ""`: the lower-cased text
      after the last '.', or the whole name lower-cased when it has no '.'.
      (`pop` on a split never yields undefined, and `|| ""` maps "" to "".) */
  function ExtVanilla(name: string): (e: string)
    ensures |e| <= |name|
    ensures e == Lower(name[|name| - |e|..])
    ensures '.' !in name[|name| - |e|..]
    ensures |e| < |name| ==> name[|name| - |e| - 1] == '.'
  {
    var parts := Split(name, '.');
    Lower(parts[|parts| - 1])
  }

  /** `lastIndexOf` version: the lower-cased text after the last '.', and
      "" for a name without '.'. */
  function ExtReact(name: string): (e: string)
    ensures '.' !in name ==> e == ""
    ensures '.' in name ==> |e| < |name| && name[|name| - |e| - 1] == '.'
    ensures '.' in name ==> e == Lower(name[|name| - |e|..]) && '.' !in name[|name| - |e|..]
  {
    var i := LastIndexOf(name, '.');
    if i >= 0 then Lower(name[i + 1..]) else ""
  }

  function Ext(v: Variant, name: string): string
  {
    match v
    case Vanilla => ExtVanilla(name)
    case React => ExtReact(name)
  }

  /** app.js's rule read through `lastIndexOf`: the part after the last
      '.' (the whole name when there is none), lower-cased. */
  lemma ExtVanillaByLastDot(name: string)
    ensures ExtVanilla(name) == Lower(name[LastIndexOf(name, '.') + 1..])
  {
  }

  /** The two rules agree on every name that has a '.'; on a name without
      one, app.js returns the whole name and pages/upload.js returns "". */
  lemma ExtVariantsAgreeOnDottedNames(name: string)
    ensures '.' in name ==> ExtVanilla(name) == ExtReact(name)
    ensures '.' !in name ==> ExtVanilla(name) == Lower(name) && ExtReact(name) == ""
  {
    ExtVanillaByLastDot(name);
    if '.' !in name {
      assert name[0..] == name;
    }
  }

  lemma {:induction false} LastDotOfLower(s: string)
    ensures LastIndexOf(Lower(s), '.') == LastIndexOf(s, '.')
  {
    var i := LastIndexOf(s, '.');
    var l := Lower(s);
    forall k | i < k < |l|
      ensures l[k] != '.'
    {
      LowerKeepsDots(s, k);
    }
    if i >= 0 {
      LowerKeepsDots(s, i);
      LastIndexOfIsUnique(l, '.', i);
    } else {
      assert LastIndexOf(l, '.') == -1;
    }
  }

  /** The extension does not depend on the case of the name. */
  lemma {:induction false} ExtIgnoresCase(v: Variant, name: string)
    ensures Ext(v, Lower(name)) == Ext(v, name)
  {
    var l := Lower(name);
    var i := LastIndexOf(name, '.');
    LastDotOfLower(name);
    assert l[i + 1..] == Lower(name[i + 1..]);
    LowerIdempotent(name[i + 1..]);
    ExtVanillaByLastDot(name);
    ExtVanillaByLastDot(l);
  }

  /** No '/' after position `i`. */
  predicate NoSlashAfter(name: string, i: int)
  {
    forall k :: 0 <= k < |name| && i < k ==> name[k] != '/'
  }

  /** `/\.[^/.]+$/` matches at `i`: a '.' followed by at least one
      character, none of them '.' or '/', up to the end of the name. */
  ghost predicate ExtensionMatchAt(name: string, i: int)
  {
    && 0 <= i < |name|
    && name[i] == '.'
    && i + 1 < |name|
    && forall k :: i < k < |name| ==> name[k] != '.' && name[k] != '/'
  }

  /** `name.replace(/\.[^/.]+$/, "")`: where the expression matches, the
      name is cut just before the match; otherwise it is kept whole. The
      title is always a prefix of the name. */
  function Title(name: string): (t: string)
    ensures t <= name
    ensures forall i :: ExtensionMatchAt(name, i) ==> t == name[..i]
    ensures (forall i :: !ExtensionMatchAt(name, i)) ==> t == name
  {
    var i := LastIndexOf(name, '.');
    if i >= 0 && i + 1 < |name| && NoSlashAfter(name, i) then
      assert ExtensionMatchAt(name, i);
      name[..i]
    else
      assert forall j :: ExtensionMatchAt(name, j) ==> j == i && NoSlashAfter(name, i);
      name
  }
}
