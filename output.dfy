/**
 * `save_transcript`: the text file a run leaves behind. Its name and content
 * are modelled; the clock is replaced by the two time stamps the source
 * formats (one for the name, one for the "Date Extracted" line), and the
 * file by a `TextFile` object whose content grows with every write.
 */
module Output {
  import opened Wrappers
  import opened PyText
  import opened Title

  /** `"=" * 80`. */
  function Rule(): (r: string)
    ensures |r| == 80 && forall i :: 0 <= i < |r| ==> r[i] == '='
  {
    seq(80, _ => '=')
  }

  /** How an f-string prints a bool. */
  function BoolText(b: bool): string
  {
    if b then "True" else "False"
  }

  /** `os.path.join(a, b)` on a POSIX system: an absolute `b` replaces `a`,
      otherwise a "/" is put between them unless `a` is empty or already
      ends in one. */
  function PosixJoin(a: string, b: string): (r: string)
    ensures b != [] && b[0] == '/' ==> r == b
    ensures (b == [] || b[0] != '/') ==> |r| >= |a| + |b| && r[..|a|] == a && r[|r| - |b|..] == b
  {
    if b != [] && b[0] == '/' then b
    else if a == [] || a[|a| - 1] == '/' then a + b
    else a + "/" + b
  }

  /** After a directory that already ends in `/`, a relative name is
      appended with no separator in between. */
  lemma PosixJoinAfterSlash(a: string, b: string)
    requires a != [] && a[|a| - 1] == '/'
    requires b == [] || b[0] != '/'
    ensures PosixJoin(a, b) == a + b
  {
  }

  /** `f"{video_title}_{timestamp}.txt"`. */
  function FileName(title: string, stamp: string): string
  {
    title + "_" + stamp + ".txt"
  }

  const TitleLabel := "YouTube Video: "
  const IdLabel := "Video ID: "
  const UrlLabel := "URL: https://www.youtube.com/watch?v="
  const LanguageLabel := "Original Language: "
  const TranslatedLabel := "Translated to English: "
  const DateLabel := "Date Extracted: "

  /** One `f"{label}{value}\n"` line. */
  function Line(name: string, value: string): string
  {
    name + value + "\n"
  }

  /** The six metadata lines, without their line breaks, and the blank line after them. */
  function MetadataLines(title: string, videoId: string, sourceLang: string, translated: bool, date: string): seq<string>
  {
    [TitleLabel + title, IdLabel + videoId, UrlLabel + videoId, LanguageLabel + sourceLang,
     TranslatedLabel + BoolText(translated), DateLabel + date, "", ""]
  }

  /** The six metadata writes: one line each, the last followed by a blank line. */
  function Metadata(title: string, videoId: string, sourceLang: string, translated: bool, date: string): string
  {
    Line(TitleLabel, title) + Line(IdLabel, videoId) + Line(UrlLabel, videoId)
    + Line(LanguageLabel, sourceLang) + Line(TranslatedLabel, BoolText(translated))
    + Line(DateLabel, date) + "\n"
  }

  const SummaryHeading := "SUMMARY"
  const TranscriptHeading := "FULL TRANSCRIPT"

  /** A section heading between two rules, then a blank line. */
  function Section(name: string): string
  {
    Rule() + "\n" + name + "\n" + Rule() + "\n\n"
  }

  /** The whole file: metadata, the summary section, the transcript section. */
  function Layout(title: string, videoId: string, sourceLang: string, translated: bool, date: string,
                  summary: string, full: string): string
  {
    Metadata(title, videoId, sourceLang, translated, date)
    + Section(SummaryHeading) + (summary + "\n\n" + Section(TranscriptHeading)) + full
  }

  /** A file opened for writing: `write` appends. */
  class TextFile {
    const path: string
    var content: string

    constructor Open(path: string)
      ensures this.path == path && content == ""
    {
      this.path := path;
      content := "";
    }

    method Write(s: string)
      modifies this
      ensures content == old(content) + s
    {
      content := content + s;
    }
  }

  /** The six metadata writes both versions share. */
  method WriteMetadata(f: TextFile, title: string, videoId: string, sourceLang: string, translated: bool, date: string)
    modifies f
    ensures f.content == old(f.content) + Metadata(title, videoId, sourceLang, translated, date)
  {
    ghost var c := f.content;
    var l1, l2, l3 := Line(TitleLabel, title), Line(IdLabel, videoId), Line(UrlLabel, videoId);
    var l4, l5, l6 := Line(LanguageLabel, sourceLang), Line(TranslatedLabel, BoolText(translated)), Line(DateLabel, date) + "\n";
    f.Write(l1);
    f.Write(l2);
    f.Write(l3);
    f.Write(l4);
    f.Write(l5);
    f.Write(l6);
    assert f.content == c + l1 + l2 + l3 + l4 + l5 + l6;
    MetadataWritesAssoc(c, l1, l2, l3, l4, l5, l6);
  }

  /** The six metadata writes, appended one after another, append their concatenation. */
  lemma MetadataWritesAssoc(c: string, l1: string, l2: string, l3: string, l4: string, l5: string, l6: string)
    ensures c + l1 + l2 + l3 + l4 + l5 + l6 == c + (l1 + l2 + l3 + l4 + l5 + l6)
  {
  }

  /** `save_transcript` of the current pipeline. `dirPath` None means the
      default `<cwd>/transcripts`; `fileStamp` is the `%Y%m%d_%H%M%S` time
      of the name, `date` the `%Y-%m-%d %H:%M:%S` time of the content. */
  method SaveTranscript(title: string, videoId: string, sourceLang: string, translated: bool,
                        summary: string, full: string, dirPath: Option<string>,
                        cwd: string, fileStamp: string, date: string)
    returns (filename: string, file: TextFile)
    ensures filename == PosixJoin(if dirPath.Some? then dirPath.value else PosixJoin(cwd, "transcripts"),
                                  FileName(title, fileStamp))
    ensures fresh(file) && file.path == filename
    ensures file.content == Layout(title, videoId, sourceLang, translated, date, summary, full)
  {
    var dir := if dirPath.Some? then dirPath.value else PosixJoin(cwd, "transcripts");
    filename := PosixJoin(dir, FileName(title, fileStamp));
    file := new TextFile.Open(filename);
    WriteContent(file, title, videoId, sourceLang, translated, date, summary, full);
  }

  /** The nine writes of the current version, in order. */
  method WriteContent(f: TextFile, title: string, videoId: string, sourceLang: string, translated: bool,
                      date: string, summary: string, full: string)
    modifies f
    requires f.content == ""
    ensures f.content == Layout(title, videoId, sourceLang, translated, date, summary, full)
  {
    ghost var m := Metadata(title, videoId, sourceLang, translated, date);
    var s1 := Section(SummaryHeading);
    var s2 := summary + "\n\n" + Section(TranscriptHeading);
    WriteMetadata(f, title, videoId, sourceLang, translated, date);
    assert f.content == m;
    f.Write(s1);
    f.Write(s2);
    f.Write(full);
    assert f.content == m + s1 + s2 + full;
  }

  /** The older version writes a section heading in three pieces. */
  method WriteSection(f: TextFile, name: string)
    modifies f
    ensures f.content == old(f.content) + Section(name)
  {
    ghost var c := f.content;
    f.Write(Rule() + "\n");
    f.Write(name + "\n");
    f.Write(Rule() + "\n\n");
    assert f.content == c + (Rule() + "\n") + (name + "\n") + (Rule() + "\n\n");
    ThreeWritesAssoc(c, Rule() + "\n", name + "\n", Rule() + "\n\n");
    assert Section(name) == Rule() + "\n" + (name + "\n") + (Rule() + "\n\n");
  }

  /** Three writes, appended one after another, append their concatenation. */
  lemma ThreeWritesAssoc(c: string, a: string, b: string, d: string)
    ensures c + a + b + d == c + (a + b + d)
  {
  }

  /** The writes of the older version, in order. */
  method WriteContentOld(f: TextFile, title: string, videoId: string, sourceLang: string, translated: bool,
                         date: string, summary: string, full: string)
    modifies f
    requires f.content == ""
    ensures f.content == Layout(title, videoId, sourceLang, translated, date, summary, full)
  {
    ghost var m := Metadata(title, videoId, sourceLang, translated, date);
    ghost var b := summary + "\n\n" + Section(TranscriptHeading);
    WriteMetadata(f, title, videoId, sourceLang, translated, date);
    assert f.content == m;
    WriteSection(f, SummaryHeading);
    assert f.content == m + Section(SummaryHeading);
    WriteSummaryOld(f, summary);
    assert f.content == m + Section(SummaryHeading) + b;
    f.Write(full);
  }

  /** The older version's summary write and the heading after it. */
  method WriteSummaryOld(f: TextFile, summary: string)
    modifies f
    ensures f.content == old(f.content) + (summary + "\n\n" + Section(TranscriptHeading))
  {
    ghost var c := f.content;
    f.Write(summary + "\n\n");
    WriteSection(f, TranscriptHeading);
    ThreeWritesAssoc(c, summary, "\n\n", Section(TranscriptHeading));
  }

  /** `save_transcript` of the older version: always under the relative
      `transcripts` directory, and None instead of an exception when the
      directory or the file cannot be created (`writable` is false). */
  method SaveTranscriptOld(title: string, videoId: string, sourceLang: string, translated: bool,
                           summary: string, full: string, fileStamp: string, date: string, writable: bool)
    returns (filename: Option<string>, file: TextFile?)
    ensures !writable ==> filename == None && file == null
    ensures writable ==> filename == Some("transcripts/" + FileName(title, fileStamp))
    ensures writable ==>
      file != null && fresh(file) && file.path == filename.value
      && file.content == Layout(title, videoId, sourceLang, translated, date, summary, full)
  {
    if !writable {
      return None, null;
    }
    var name := "transcripts/" + FileName(title, fileStamp);
    var f := new TextFile.Open(name);
    WriteContentOld(f, title, videoId, sourceLang, translated, date, summary, full);
    return Some(name), f;
  }

  /** The file ends with the transcript, verbatim. */
  lemma LayoutEndsWithTranscript(title: string, videoId: string, sourceLang: string, translated: bool,
                                 date: string, summary: string, full: string)
    ensures var l := Layout(title, videoId, sourceLang, translated, date, summary, full);
      |l| >= |full| && l[|l| - |full|..] == full
  {
  }

  /** Where the sections sit: after the metadata comes the SUMMARY heading,
      then the summary, then the FULL TRANSCRIPT heading, then the
      transcript, so the summary always precedes the transcript. */
  lemma LayoutSections(title: string, videoId: string, sourceLang: string, translated: bool,
                       date: string, summary: string, full: string)
    ensures var l := Layout(title, videoId, sourceLang, translated, date, summary, full);
      var m := |Metadata(title, videoId, sourceLang, translated, date)|;
      var p := m + |Section(SummaryHeading)|;
      var q := p + |summary| + 2;
      |l| == q + |Section(TranscriptHeading)| + |full|
      && l[m + 81..m + 82 + |SummaryHeading|] == SummaryHeading + "\n"
      && l[p..p + |summary|] == summary
      && l[q + 81..q + 82 + |TranscriptHeading|] == TranscriptHeading + "\n"
      && l[q + |Section(TranscriptHeading)|..] == full
  {
    var md := Metadata(title, videoId, sourceLang, translated, date);
    SectionsAt(md, SummaryHeading, summary, TranscriptHeading, full);
  }

  /** The same positions for any metadata block and any two headings. */
  lemma SectionsAt(md: string, n1: string, summary: string, n2: string, full: string)
    ensures var l := md + Section(n1) + (summary + "\n\n" + Section(n2)) + full;
      var p := |md| + |Section(n1)|;
      var q := p + |summary| + 2;
      |l| == q + |Section(n2)| + |full|
      && l[|md| + 81..|md| + 82 + |n1|] == n1 + "\n"
      && l[p..p + |summary|] == summary
      && l[q + 81..q + 82 + |n2|] == n2 + "\n"
      && l[q + |Section(n2)|..] == full
  {
    var s1 := Section(n1);
    var s2 := Section(n2);
    SectionHeading(n1);
    SectionHeading(n2);
    var l := md + s1 + (summary + "\n\n" + s2) + full;
    SliceWithin(md, s1, summary + "\n\n" + s2 + full, 81, 82 + |n1|);
    SliceWithin(md + s1, summary, "\n\n" + s2 + full, 0, |summary|);
    SliceWithin(md + s1 + summary + "\n\n", s2, full, 81, 82 + |n2|);
    assert l == md + s1 + (summary + "\n\n" + s2 + full);
    assert l == md + s1 + summary + ("\n\n" + s2 + full);
    assert l == md + s1 + summary + "\n\n" + s2 + full;
  }

  /** The heading's name sits right after the first rule and its line break. */
  lemma SectionHeading(name: string)
    ensures |Section(name)| == |name| + 164
    ensures Section(name)[81..82 + |name|] == name + "\n"
  {
    var r := Rule();
    assert Section(name) == (r + "\n") + (name + "\n") + (r + "\n\n");
    SliceWithin(r + "\n", name + "\n", r + "\n\n", 0, |name| + 1);
  }

  lemma SliceWithin(a: string, b: string, c: string, i: nat, j: nat)
    requires i <= j <= |b|
    ensures (a + b + c)[|a| + i..|a| + j] == b[i..j]
  {
    forall k | i <= k < j
      ensures (a + b + c)[|a| + k] == b[k]
    {
    }
  }

  /** Split at line breaks, the metadata gives back its six lines and the
      blank line, when no field holds a line break of its own. */
  lemma MetadataRoundTrip(title: string, videoId: string, sourceLang: string, translated: bool, date: string)
    requires '\n' !in title && '\n' !in videoId && '\n' !in sourceLang && '\n' !in date
    ensures Split(Metadata(title, videoId, sourceLang, translated, date), "\n")
         == MetadataLines(title, videoId, sourceLang, translated, date)
  {
    var lines := MetadataLines(title, videoId, sourceLang, translated, date);
    LabelsWithoutBreak();
    assert '\n' !in BoolText(translated);
    assert forall i :: 0 <= i < |lines| ==> '\n' !in lines[i];
    LinesRoundTrip(lines);
  }

  lemma LabelsWithoutBreak()
    ensures '\n' !in TitleLabel && '\n' !in IdLabel && '\n' !in UrlLabel
    ensures '\n' !in LanguageLabel && '\n' !in TranslatedLabel && '\n' !in DateLabel
  {
    FirstLabelsWithoutBreak();
    NoBreak(LanguageLabel);
    NoBreak(TranslatedLabel);
    NoBreak(DateLabel);
  }

  lemma FirstLabelsWithoutBreak()
    ensures '\n' !in TitleLabel && '\n' !in IdLabel && '\n' !in UrlLabel
  {
    NoBreak(TitleLabel);
    NoBreak(IdLabel);
    NoBreak(UrlLabel);
  }

  /** A label made of printable characters holds no line break. */
  lemma NoBreak(s: string)
    requires forall i :: 0 <= i < |s| ==> ' ' <= s[i]
    ensures '\n' !in s
  {
  }

  /** Eight lines without line breaks, the last two empty, come back from
      their line-by-line rendering. */
  lemma LinesRoundTrip(lines: seq<string>)
    requires |lines| == 8 && lines[6] == "" && lines[7] == ""
    requires forall i :: 0 <= i < |lines| ==> '\n' !in lines[i]
    ensures Split((lines[0] + "\n") + (lines[1] + "\n") + (lines[2] + "\n") + (lines[3] + "\n")
      + (lines[4] + "\n") + (lines[5] + "\n") + "\n", "\n") == lines
  {
    forall i | 0 <= i < |lines|
      ensures !Contains(lines[i] + "\n"[..0], "\n")
    {
      assert lines[i] + "\n"[..0] == lines[i];
      ContainsHead(lines[i], "\n");
    }
    JoinLines(lines);
    SplitJoin(lines, "\n");
  }

  /** Joining the eight metadata lines, the last two empty, with "\n". */
  lemma JoinLines(lines: seq<string>)
    requires |lines| == 8 && lines[6] == "" && lines[7] == ""
    ensures Join(lines, "\n") == (lines[0] + "\n") + (lines[1] + "\n") + (lines[2] + "\n") + (lines[3] + "\n")
      + (lines[4] + "\n") + (lines[5] + "\n") + "\n"
  {
    forall k | 0 <= k < 7
      ensures Join(lines[k..], "\n") == lines[k] + "\n" + Join(lines[k + 1..], "\n")
    {
      assert lines[k..][1..] == lines[k + 1..];
    }
    assert Join(lines[7..], "\n") == "";
    assert Join(lines[6..], "\n") == "\n";
    assert lines[0..] == lines;
    LinesJoinAssoc(lines[0] + "\n", lines[1] + "\n", lines[2] + "\n", lines[3] + "\n", lines[4] + "\n", lines[5] + "\n", "\n");
  }

  /** The metadata lines joined from the right are the lines appended in order. */
  lemma LinesJoinAssoc(a: string, b: string, c: string, d: string, e: string, f: string, g: string)
    ensures a + (b + (c + (d + (e + (f + g))))) == a + b + c + d + e + f + g
  {
  }

  /** A sanitised title names a file directly inside the directory: the
      name holds no "/", and joining puts exactly one "/" before it. */
  lemma SavedInDirectory(dir: string, rawTitle: string, stamp: string)
    requires dir != [] && dir[|dir| - 1] != '/'
    requires '/' !in stamp
    ensures '/' !in FileName(Sanitize(rawTitle), stamp)
    ensures PosixJoin(dir, FileName(Sanitize(rawTitle), stamp)) == dir + "/" + FileName(Sanitize(rawTitle), stamp)
  {
    NameInDirectory(dir, Sanitize(rawTitle), stamp);
  }

  lemma NameInDirectory(dir: string, t: string, stamp: string)
    requires dir != [] && dir[|dir| - 1] != '/'
    requires NoForbidden(t) && '/' !in stamp
    ensures '/' !in FileName(t, stamp)
    ensures PosixJoin(dir, FileName(t, stamp)) == dir + "/" + FileName(t, stamp)
  {
    assert IsForbidden('/') && '/' !in t;
    assert '/' !in "_" && '/' !in ".txt";
    var name := FileName(t, stamp);
    assert name == t + "_" + stamp + ".txt";
    assert name[0] in name;
  }

  /** With no directory given, the current version writes to the older
      version's relative path `transcripts/<name>`, resolved against the
      working directory. */
  lemma DefaultDirectoryAsOld(cwd: string, title: string, stamp: string)
    requires title == [] || title[0] != '/'
    ensures PosixJoin(PosixJoin(cwd, "transcripts"), FileName(title, stamp))
         == PosixJoin(cwd, "transcripts/" + FileName(title, stamp))
  {
    var name := FileName(title, stamp);
    assert name[0] != '/' by {
      if title == [] {
        assert name[0] == '_';
      } else {
        assert name[0] == title[0];
      }
    }
    var d := "transcripts";
    assert d[0] == 't' && d[|d| - 1] == 's';
    assert "transcripts/" + name == d + "/" + name;
    JoinNested(cwd, d, name);
  }

  /** Joining a relative directory and then a relative name is joining
      their relative path `dir/name`. */
  lemma JoinNested(cwd: string, dir: string, name: string)
    requires dir != [] && dir[0] != '/' && dir[|dir| - 1] != '/'
    requires name != [] && name[0] != '/'
    ensures PosixJoin(PosixJoin(cwd, dir), name) == PosixJoin(cwd, dir + "/" + name)
  {
    var inner := PosixJoin(cwd, dir);
    assert inner[|inner| - 1] == dir[|dir| - 1];
    assert (dir + "/" + name)[0] == dir[0];
    if cwd == [] || cwd[|cwd| - 1] == '/' {
      assert cwd + dir + "/" + name == cwd + (dir + "/" + name);
    } else {
      assert cwd + "/" + dir + "/" + name == cwd + "/" + (dir + "/" + name);
    }
  }
}
