/**
 * The file name of a recipe's PDF export and the `Content-Disposition`
 * header that announces it. The document layout is not modelled.
 */
module Pdf {
  import opened Wrappers
  import opened Text

  const Suffix := "_recipe.pdf"
  const DispositionPrefix := "attachment; filename=\""

  /** The slug character of one title character: a space becomes '_', a capital its lower case. */
  function SlugChar(c: char): char {
    LowerChar(if c == ' ' then '_' else c)
  }

  /** The stem of the file name: spaces become underscores, then the title is lower-cased. */
  function Stem(title: string): (r: string)
    ensures |r| == |title|
    ensures forall i :: 0 <= i < |title| ==> r[i] == SlugChar(title[i])
  {
    Lower(ReplaceChar(title, ' ', '_'))
  }

  /** The PDF file name `generate_recipe_pdf` derives from a recipe title. */
  function Filename(title: string): (r: string)
    ensures |r| == |title| + |Suffix|
    ensures r[|title|..] == Suffix
    ensures forall i :: 0 <= i < |title| ==> r[i] == SlugChar(title[i])
    ensures ' ' !in r
    ensures forall i :: 0 <= i < |r| ==> !IsAsciiUpper(r[i])
  {
    var stem := Stem(title);
    var r := stem + Suffix;
    assert forall i :: 0 <= i < |title| ==> r[i] == stem[i];
    assert forall i :: |title| <= i < |r| ==> r[i] == Suffix[i - |title|];
    r
  }

  /** The attachment header of the export response. */
  function ContentDisposition(filename: string): (r: string)
    ensures |r| == |DispositionPrefix| + |filename| + 1
    ensures r[..|DispositionPrefix|] == DispositionPrefix
    ensures r[|DispositionPrefix|..|r| - 1] == filename
    ensures r[|r| - 1] == '"'
  {
    var r := DispositionPrefix + filename + "\"";
    assert r[..|DispositionPrefix|] == DispositionPrefix;
    assert r[|DispositionPrefix|..|r| - 1] == filename;
    r
  }

  /** Read the file name back out of an attachment header, if it is one. */
  function ParseDisposition(header: string): (r: Option<string>)
    ensures r.Some? ==> ContentDisposition(r.value) == header
  {
    if |header| > |DispositionPrefix| && header[..|DispositionPrefix|] == DispositionPrefix
       && header[|header| - 1] == '"'
    then
      var name := header[|DispositionPrefix|..|header| - 1];
      assert header == header[..|DispositionPrefix|] + name + [header[|header| - 1]];
      Some(name)
    else None
  }

  /** The header names exactly the file name it was built from. */
  lemma DispositionRoundTrip(filename: string)
    ensures ParseDisposition(ContentDisposition(filename)) == Some(filename)
  {
  }

  /** The header of an export names the title's file name. */
  lemma ExportHeaderNamesFile(title: string)
    ensures ParseDisposition(ContentDisposition(Filename(title))) == Some(Filename(title))
  {
    DispositionRoundTrip(Filename(title));
  }

  /** Slugging a slug changes nothing. */
  lemma {:induction false} StemIdempotent(title: string)
    ensures Stem(Stem(title)) == Stem(title)
  {
    var s := Stem(title);
    forall i | 0 <= i < |title|
      ensures Stem(s)[i] == s[i]
    {
      assert s[i] != ' ';
    }
  }

  /**
   * Two titles share a PDF file name exactly when they agree character by
   * character up to letter case and the space/underscore distinction, so
   * "Apple Pie" and "apple_pie" overwrite each other's file.
   */
  lemma FilenameCollision(t1: string, t2: string)
    ensures Filename(t1) == Filename(t2) <==>
      |t1| == |t2| && forall i :: 0 <= i < |t1| ==> SlugChar(t1[i]) == SlugChar(t2[i])
  {
    if Filename(t1) == Filename(t2) {
      assert |t1| == |t2|;
      forall i | 0 <= i < |t1|
        ensures SlugChar(t1[i]) == SlugChar(t2[i])
      {
        assert Filename(t1)[i] == Filename(t2)[i];
      }
    }
    if |t1| == |t2| && forall i :: 0 <= i < |t1| ==> SlugChar(t1[i]) == SlugChar(t2[i]) {
      assert Stem(t1) == Stem(t2);
    }
  }
}
