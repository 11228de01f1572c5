/**
 * `getDownloadFileName()`: the export file is named after the video title,
 * with a fixed fallback when the page shows no title.  The Excel writer is
 * handed the same name with `.html` taken out, by `title.replace('.html', '')`.
 */
module FileName {

  const Extension := ".html"
  const DefaultName := "Bilibili_Helper.html"

  /** `s` ends with `suffix`. */
  predicate EndsWith(s: string, suffix: string)
  {
    |suffix| <= |s| && s[|s| - |suffix|..] == suffix
  }

  /** `pat` occurs in `s` starting at position `i`. */
  predicate OccursAt(s: string, pat: string, i: int)
  {
    0 <= i && i + |pat| <= |s| && s[i..i + |pat|] == pat
  }

  /** `getDownloadFileName` on the title read from the page (`''` when there is none). */
  function DownloadFileName(title: string): (name: string)
    ensures EndsWith(name, Extension)
    ensures title != "" ==> |name| == |title| + |Extension| && name[..|title|] == title
    ensures title == "" ==> name == DefaultName
  {
    if title != "" then title + Extension else DefaultName
  }

  /** An occurrence at `j` > 0 is an occurrence at `j - 1` in the tail. */
  lemma OccursAtTail(s: string, pat: string, j: int)
    requires 1 <= j && s != []
    ensures OccursAt(s, pat, j) <==> OccursAt(s[1..], pat, j - 1)
  {
    if j + |pat| <= |s| {
      var here, there := s[j..j + |pat|], s[1..][j - 1..j - 1 + |pat|];
      assert forall m :: 0 <= m < |here| ==> here[m] == there[m];
      assert here == there;
    }
  }

  /** `s.indexOf(pat)`: the first position where `pat` occurs in `s`, -1 when it does not occur. */
  function FirstOccurrence(s: string, pat: string): (i: int)
    requires pat != []
    ensures i == -1 || 0 <= i <= |s| - |pat|
    ensures i >= 0 ==> OccursAt(s, pat, i)
    ensures forall j :: 0 <= j < (if i < 0 then |s| + 1 else i) ==> !OccursAt(s, pat, j)
    decreases |s|
  {
    if |s| < |pat| then -1
    else if s[..|pat|] == pat then
      assert s[0..|pat|] == s[..|pat|];
      0
    else
      var k := FirstOccurrence(s[1..], pat);
      assert forall j :: 1 <= j <= |s| ==> (OccursAt(s, pat, j) <==> OccursAt(s[1..], pat, j - 1)) by {
        forall j | 1 <= j <= |s| {
          OccursAtTail(s, pat, j);
        }
      }
      assert s[0..|pat|] == s[..|pat|];
      if k < 0 then -1 else k + 1
  }

  /** Removing `n` items at `k` from the tail is removing them at `k + 1` from the whole. */
  lemma RemoveAfterHead(s: string, k: nat, n: nat)
    requires s != [] && k + n <= |s| - 1
    ensures [s[0]] + (s[1..][..k] + s[1..][k + n..]) == s[..k + 1] + s[k + 1 + n..]
  {
    assert [s[0]] + s[1..][..k] == s[..k + 1];
    assert s[1..][k + n..] == s[k + 1 + n..];
  }

  /**
   * `s.replace(pat, '')` with a string pattern, as written at the Excel
   * branch: only the FIRST occurrence of `pat` is removed, and a string
   * without `pat` is returned unchanged.
   */
  function ReplaceFirst(s: string, pat: string): (r: string)
    requires pat != []
    ensures var i := FirstOccurrence(s, pat);
      && (i < 0 ==> r == s)
      && (i >= 0 ==> r == s[..i] + s[i + |pat|..])
    decreases |s|
  {
    if |s| < |pat| then s
    else if s[..|pat|] == pat then s[|pat|..]
    else
      var rest := ReplaceFirst(s[1..], pat);
      var k := FirstOccurrence(s[1..], pat);
      assert s[0..|pat|] == s[..|pat|];
      assert FirstOccurrence(s, pat) == if k < 0 then -1 else k + 1;
      assert k >= 0 ==> [s[0]] + rest == s[..k + 1] + s[k + 1 + |pat|..] by {
        if k >= 0 {
          RemoveAfterHead(s, k, |pat|);
        }
      }
      assert k < 0 ==> [s[0]] + rest == s;
      [s[0]] + rest
  }

  /** Taking the extension off the end of the name, as the writer evidently means to. */
  function StripExtension(name: string): (base: string)
    ensures EndsWith(name, Extension) ==> base + Extension == name
    ensures !EndsWith(name, Extension) ==> base == name
  {
    if EndsWith(name, Extension) then name[..|name| - |Extension|] else name
  }

  /** The corrected name handed to the Excel writer: the title, or the fallback's stem. */
  lemma StripExtensionRecoversTitle(title: string)
    ensures title != "" ==> StripExtension(DownloadFileName(title)) == title
    ensures title == "" ==> StripExtension(DownloadFileName(title)) == "Bilibili_Helper"
  {
    var name := DownloadFileName(title);
    assert name[..|name| - |Extension|] == if title != "" then title else "Bilibili_Helper";
  }

  /**
   * As written, `replace('.html', '')` gives back the title whenever the
   * title has no `.html` inside (nor one across its end and the extension).
   */
  lemma ReplaceFirstRecoversPlainTitle(title: string)
    requires title != ""
    requires forall i :: 0 <= i < |title| ==> !OccursAt(title + Extension, Extension, i)
    ensures ReplaceFirst(DownloadFileName(title), Extension) == title
  {
    var name := DownloadFileName(title);
    assert OccursAt(name, Extension, |title|);
    assert FirstOccurrence(name, Extension) == |title|;
    assert name[|title| + |Extension|..] == [];
  }

  /**
   * As written, a title with `.html` inside loses that occurrence instead of
   * the extension: the title `x.htmly` gives the Excel name `xy.html`.
   */
  lemma ReplaceFirstMangledTitle()
    ensures DownloadFileName("x.htmly") == "x.htmly.html"
    ensures ReplaceFirst(DownloadFileName("x.htmly"), Extension) == "xy.html"
    ensures StripExtension(DownloadFileName("x.htmly")) == "x.htmly"
  {
    var name := DownloadFileName("x.htmly");
    assert name[1..1 + |Extension|] == Extension;
    assert !OccursAt(name, Extension, 0) by {
      assert name[0..|Extension|][0] == 'x';
    }
    assert FirstOccurrence(name, Extension) == 1;
    assert name[..1] + name[1 + |Extension|..] == "xy.html";
    StripExtensionRecoversTitle("x.htmly");
  }
}
