/** What `render` (app.js) and the JSX of pages/upload.js derive from the
    store apart from the DOM itself: the status line and whether an entry
    gets an image preview. */
module View {
  import opened Wrappers
  import opened Text
  import opened FileNames
  import opened Catalog

  const Singular: string := "1 file ready"
  const PluralSuffix: string := " files ready"

  /** The status line for `n` staged files: the singular text exactly when
      `n` is 1, otherwise the count in decimal followed by " files ready". */
  function CountLabel(n: nat): (s: string)
    ensures s == Singular <==> n == 1
    ensures n != 1 ==> Decimal(n) <= s && s[|Decimal(n)|..] == PluralSuffix
  {
    if n == 1 then Singular else Decimal(n) + PluralSuffix
  }

  /** Reads a status line back to its count. */
  function ParseCountLabel(s: string): Option<nat>
  {
    if s == Singular then Some(1)
    else if |s| > |PluralSuffix| && s[|s| - |PluralSuffix|..] == PluralSuffix
      && IsDigits(s[..|s| - |PluralSuffix|])
    then Some(ParseDecimal(s[..|s| - |PluralSuffix|]))
    else None
  }

  /** The status line determines the count: reading it back gives `n`. */
  lemma CountLabelRoundTrip(n: nat)
    ensures ParseCountLabel(CountLabel(n)) == Some(n)
  {
    if n != 1 {
      var d := Decimal(n);
      var s := d + PluralSuffix;
      assert s[|s| - |PluralSuffix|..] == PluralSuffix;
      assert s[..|s| - |PluralSuffix|] == d;
      ParseDecimalInvertsDecimal(n);
    }
  }

  /** The status line both pages show above the list: none for an empty
      store, else the count label, from which the count can be read back. */
  function StatusLine(n: nat): (line: Option<string>)
    ensures line.None? <==> n == 0
    ensures line.Some? ==> ParseCountLabel(line.value) == Some(n)
  {
    if n == 0 then None
    else
      CountLabelRoundTrip(n);
      Some(CountLabel(n))
  }

  const PreviewExtensions: seq<string> := ["jpg", "jpeg", "png", "gif", "webp", "svg"]

  /** app.js renders an inline preview for these extensions (its own
      split-based rule). */
  predicate ShowsPreview(name: string)
  {
    ExtVanilla(name) in PreviewExtensions
  }

  /** Every preview extension is an image extension. */
  lemma PreviewExtensionIsImage(e: string)
    requires e in PreviewExtensions
    ensures CategoryOfExtension(e) == "Images"
  {
    assert ImageExtensions[..4] == PreviewExtensions[..4];
    assert ImageExtensions[5] == PreviewExtensions[5] && ImageExtensions[6] == PreviewExtensions[4];
  }

  /** Every previewed file is categorised as an image; the converse fails
      for `bmp`, which is an image without a preview. */
  lemma PreviewImpliesImage(name: string)
    ensures ShowsPreview(name) ==> DefaultCategory(Vanilla, name) == "Images"
    ensures ExtVanilla(name) == "bmp" ==> DefaultCategory(Vanilla, name) == "Images" && !ShowsPreview(name)
  {
    var e := ExtVanilla(name);
    if e in PreviewExtensions {
      PreviewExtensionIsImage(e);
    }
    if e == "bmp" {
      assert ImageExtensions[4] == e;
    }
  }
}
