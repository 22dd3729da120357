/** The fixed value sets offered by the metadata selectors, and the
    extension table behind `getDefaultCategory`. */
module Catalog {
  import opened Text
  import opened FileNames

  const Categories: seq<string> :=
    ["Documents", "Images", "Videos", "Audio", "Archives", "Spreadsheets", "Presentations", "Code", "Other"]
  const Priorities: seq<string> := ["Low", "Medium", "High", "Urgent"]
  const Hierarchies: seq<string> := ["Level 1", "Level 2", "Level 3", "Level 4", "Level 5"]
  const SapModules: seq<string> :=
    ["FI - Finance", "CO - Controlling", "SD - Sales & Distribution", "MM - Materials Management",
     "PP - Production Planning", "HR - Human Resources", "PM - Plant Maintenance",
     "QM - Quality Management", "WM - Warehouse Management", "PS - Project Systems", "Other"]
  const ContentTypes: seq<string> :=
    ["Manual", "Process Document", "Training Material", "Policy", "Procedure", "Form",
     "Template", "Report", "Specification", "Other"]

  const ImageExtensions: seq<string> := ["jpg", "jpeg", "png", "gif", "bmp", "svg", "webp"]
  const VideoExtensions: seq<string> := ["mp4", "avi", "mkv", "mov", "wmv", "flv"]
  const AudioExtensions: seq<string> := ["mp3", "wav", "flac", "aac", "ogg"]
  const ArchiveExtensions: seq<string> := ["zip", "rar", "7z", "tar", "gz"]
  const SpreadsheetExtensions: seq<string> := ["xls", "xlsx", "csv"]
  const PresentationExtensions: seq<string> := ["ppt", "pptx"]
  const CodeExtensions: seq<string> := ["js", "html", "css", "py", "java", "cpp", "c"]

  /** Every extension the table recognises. */
  predicate Known(e: string)
  {
    || e in ImageExtensions || e in VideoExtensions || e in AudioExtensions
    || e in ArchiveExtensions || e in SpreadsheetExtensions
    || e in PresentationExtensions || e in CodeExtensions
  }

  /** The category an (already lower-cased) extension selects. The rows of
      the table are disjoint, so each category is chosen exactly for its own
      row, and `Documents` exactly for the extensions no row lists; `Other`
      is never chosen. */
  function CategoryOfExtension(e: string): (c: string)
    ensures c in Categories && c != "Other"
    ensures c == "Images" <==> e in ImageExtensions
    ensures c == "Videos" <==> e in VideoExtensions
    ensures c == "Audio" <==> e in AudioExtensions
    ensures c == "Archives" <==> e in ArchiveExtensions
    ensures c == "Spreadsheets" <==> e in SpreadsheetExtensions
    ensures c == "Presentations" <==> e in PresentationExtensions
    ensures c == "Code" <==> e in CodeExtensions
    ensures c == "Documents" <==> !Known(e)
  {
    if e in ImageExtensions then "Images"
    else if e in VideoExtensions then "Videos"
    else if e in AudioExtensions then "Audio"
    else if e in ArchiveExtensions then "Archives"
    else if e in SpreadsheetExtensions then "Spreadsheets"
    else if e in PresentationExtensions then "Presentations"
    else if e in CodeExtensions then "Code"
    else "Documents"
  }

  /** `getDefaultCategory(filename)` of either page. */
  function DefaultCategory(v: Variant, name: string): (c: string)
    ensures c in Categories && c != "Other"
    ensures c == "Documents" <==> !Known(Ext(v, name))
  {
    CategoryOfExtension(Ext(v, name))
  }

  /** The category ignores the case of the file name. */
  lemma DefaultCategoryIgnoresCase(v: Variant, name: string)
    ensures DefaultCategory(v, Lower(name)) == DefaultCategory(v, name)
  {
    ExtIgnoresCase(v, name);
  }

  /** On a name with a '.', both pages infer the same category. On a name
      without one, pages/upload.js always says `Documents`, while app.js
      looks the whole lower-cased name up (a file named `zip` is filed under
      `Archives`). */
  lemma DefaultCategoryVariants(name: string)
    ensures '.' in name ==> DefaultCategory(Vanilla, name) == DefaultCategory(React, name)
    ensures '.' !in name ==> DefaultCategory(React, name) == "Documents"
    ensures '.' !in name ==> DefaultCategory(Vanilla, name) == CategoryOfExtension(Lower(name))
  {
    ExtVariantsAgreeOnDottedNames(name);
  }

  /** An upper-case extension outside the table is a document. */
  lemma ReportPdfIsDocument()
    ensures DefaultCategory(React, "report.PDF") == "Documents"
  {
    LastIndexOfIsUnique("report.PDF", '.', 6);
    assert "report.PDF"[7..] == "PDF";
    assert Lower("PDF") == "pdf";
  }

  /** An upper-case image extension is recognised by both pages. */
  lemma PhotoJpgIsImage(v: Variant)
    ensures DefaultCategory(v, "photo.JPG") == "Images"
  {
    LastIndexOfIsUnique("photo.JPG", '.', 5);
    assert "photo.JPG"[6..] == "JPG";
    assert Lower("JPG") == "jpg";
    ExtVanillaByLastDot("photo.JPG");
  }

  /** A dot-less name is a document on pages/upload.js. */
  lemma NoExtIsDocument()
    ensures DefaultCategory(React, "noext") == "Documents"
  {
    DefaultCategoryVariants("noext");
  }

  /** A dot-less name that spells an extension is categorised by app.js as
      if it were that extension. */
  lemma BareZipIsArchiveOnVanilla()
    ensures DefaultCategory(Vanilla, "zip") == "Archives"
    ensures DefaultCategory(React, "zip") == "Documents"
  {
    assert '.' !in "zip" by {
      assert "zip"[0] == 'z' && "zip"[1] == 'i' && "zip"[2] == 'p';
    }
    assert ExtVanilla("zip") == "zip" by {
      ExtVariantsAgreeOnDottedNames("zip");
      var l := Lower("zip");
      assert l[0] == 'z' && l[1] == 'i' && l[2] == 'p';
    }
    assert DefaultCategory(React, "zip") == "Documents" by {
      DefaultCategoryVariants("zip");
    }
    assert CategoryOfExtension("zip") == "Archives" by {
      assert ArchiveExtensions[0] == "zip";
    }
  }
}
