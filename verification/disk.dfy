/** The part of the filesystem the script writes: the output folder `pdf/`, which holds
    plain files (the per-job PDFs and `final_merged.pdf`) and one sub-folder of frames
    per job. */
module Disk {
  import opened Naming
  import opened Sorting

  /** One rendered page: an image, treated as opaque. */
  datatype Page = Page(image: nat)

  /** What a file holds, as far as the script's libraries can tell. */
  datatype File =
    | Picture(page: Page)         // an image the imaging library decodes
    | Document(pages: seq<Page>)  // a PDF the PDF library reads
    | Unreadable                  // anything else

  /** A sub-folder: file name to content (sub-folders are flat). */
  type Folder = map<string, File>

  /** The output folder: its plain files and its sub-folders, by name. */
  datatype Disk = Disk(files: map<string, File>, folders: map<string, Folder>)
  {
    /** A name is either a file or a folder, not both. */
    ghost predicate Valid()
    {
      files.Keys !! folders.Keys
    }

    /** `Path.exists()` on an entry of the output folder. */
    predicate Exists(name: string)
    {
      name in files || name in folders
    }

    /** The folder after writing the plain file `name` with content `f`. */
    function WithFile(name: string, f: File): Disk
    {
      this.(files := files[name := f])
    }

    /** What a glob inside `name` sees: its files, or nothing when it is no folder. */
    function FolderAt(name: string): Folder
    {
      if name in folders then folders[name] else map[]
    }

    /** The entries a glob `*.pdf` in the output folder yields. */
    function PdfEntries(): set<string>
    {
      (set n | n in files && IsPdf(n)) + (set n | n in folders && IsPdf(n))
    }
  }

  /** How a Python call ended: it returned a value, or it raised. */
  datatype Outcome<T> = Returned(value: T) | Raised

  /** The merged document's name in the output folder. */
  const MergedName: string := "final_merged.pdf"

  /** The files of a folder that the glob `*.jpg` yields. */
  function JpgNames(f: Folder): set<string>
  {
    set n | n in f && IsJpg(n)
  }

  /** `any(folder.glob("frame_*.jpg"))`. */
  predicate HasFrames(f: Folder)
  {
    exists n | n in f :: IsFrameFile(n)
  }

  /** The files the extractor writes for its output `out`: `frame_0001.jpg` holds
      `out[0]`, and so on. */
  function FrameFiles(out: seq<File>): (m: Folder)
    ensures m.Keys == set i | 1 <= i <= |out| :: FrameName(i)
    ensures forall i | 1 <= i <= |out| :: m[FrameName(i)] == out[i - 1]
  {
    if out == [] then map[]
    else
      var pre := out[..|out| - 1];
      FrameFilesExtend(FrameFiles(pre), pre, out);
      FrameFiles(pre)[FrameName(|out|) := out[|out| - 1]]
  }

  /** Frame `n` is named apart from every earlier frame. */
  lemma FrameNamesBelow(n: nat)
    ensures forall i | 1 <= i < n :: FrameName(i) != FrameName(n)
  {
    forall i | 1 <= i < n ensures FrameName(i) != FrameName(n) {
      if FrameName(i) == FrameName(n) {
        FrameNameInjective(i, n);
      }
    }
  }

  /** Writing the last frame over the frames before it. */
  lemma FrameFilesExtend(prev: Folder, pre: seq<File>, out: seq<File>)
    requires out != [] && pre == out[..|out| - 1]
    requires prev.Keys == set i | 1 <= i <= |pre| :: FrameName(i)
    requires forall i | 1 <= i <= |pre| :: prev[FrameName(i)] == pre[i - 1]
    ensures prev[FrameName(|out|) := out[|out| - 1]].Keys == set i | 1 <= i <= |out| :: FrameName(i)
    ensures forall i | 1 <= i <= |out| :: prev[FrameName(|out|) := out[|out| - 1]][FrameName(i)] == out[i - 1]
  {
    var n := |out|;
    var m := prev[FrameName(n) := out[n - 1]];
    FrameNamesBelow(n);
    forall i | 1 <= i <= n ensures m[FrameName(i)] == out[i - 1] {
      if i < n {
        assert m[FrameName(i)] == prev[FrameName(i)] == pre[i - 1];
      }
    }
    assert (set i | 1 <= i <= n :: FrameName(i)) == (set i | 1 <= i <= |pre| :: FrameName(i)) + {FrameName(n)};
  }

  /** Every listed name is a decodable image of the folder. */
  predicate AllPictures(f: Folder, names: seq<string>)
  {
    forall i | 0 <= i < |names| :: names[i] in f && f[names[i]].Picture?
  }

  /** The pages a PDF made from the listed images holds: one per image, in order. */
  function PagesOf(f: Folder, names: seq<string>): (pages: seq<Page>)
    requires AllPictures(f, names)
    ensures |pages| == |names|
    ensures forall i | 0 <= i < |names| :: pages[i] == f[names[i]].page
  {
    if names == [] then []
    else PagesOf(f, names[..|names| - 1]) + [f[names[|names| - 1]].page]
  }

  /** Every listed name is a readable PDF among the plain files. */
  predicate AllDocuments(files: map<string, File>, names: seq<string>)
  {
    forall i | 0 <= i < |names| :: names[i] in files && files[names[i]].Document?
  }

  /** The listed names are all readable PDFs exactly when every name of the set they
      enumerate is. */
  lemma AllDocumentsOfEnumeration(files: map<string, File>, names: seq<string>, s: set<string>)
    requires Enumerates(names, s)
    ensures AllDocuments(files, names) <==> forall n | n in s :: n in files && files[n].Document?
  {
    EnumeratesMembers(names, s);
    if AllDocuments(files, names) {
      forall n | n in s ensures n in files && files[n].Document? {
        var i :| 0 <= i < |names| && names[i] == n;
      }
    }
  }

  /** The pages of the listed PDFs, one document after another. */
  function Concat(files: map<string, File>, names: seq<string>): seq<Page>
    requires AllDocuments(files, names)
  {
    if names == [] then []
    else Concat(files, names[..|names| - 1]) + files[names[|names| - 1]].pages
  }

  /** Appending a document appends its pages, each document's own order kept. */
  lemma {:induction false} ConcatAppend(files: map<string, File>, a: seq<string>, b: seq<string>)
    requires AllDocuments(files, a) && AllDocuments(files, b)
    ensures AllDocuments(files, a + b)
    ensures Concat(files, a + b) == Concat(files, a) + Concat(files, b)
    decreases |b|
  {
    if b == [] {
      assert a + b == a;
    } else {
      var b' := b[..|b| - 1];
      assert (a + b)[..|a + b| - 1] == a + b';
      ConcatAppend(files, a, b');
    }
  }

  /** A single document contributes exactly its own pages. */
  lemma ConcatOne(files: map<string, File>, name: string)
    requires name in files && files[name].Document?
    ensures AllDocuments(files, [name])
    ensures Concat(files, [name]) == files[name].pages
  {
    assert [name][..0] == [];
  }

  // ---------------------------------------------------------------------------
  // The order of the extractor's frames

  function Pow10(k: nat): (p: nat)
    ensures p >= 1
  {
    if k == 0 then 1 else 10 * Pow10(k - 1)
  }

  /** A number below 10^k has at most k digits. */
  lemma {:induction false} StrLength(n: nat, k: nat)
    requires k >= 1 && n < Pow10(k)
    ensures |Str(n)| <= k
  {
    if n >= 10 {
      assert k >= 2;
      assert n / 10 < Pow10(k - 1);
      StrLength(n / 10, k - 1);
    }
  }

  /** Between numerals of the same length, numeric order is Python's string order,
      and equal values mean equal numerals. */
  lemma {:induction false} NumeralOrder(a: string, b: string)
    requires |a| == |b| && AllDigits(a) && AllDigits(b)
    ensures DecimalValue(a) < DecimalValue(b) ==> StrLess(a, b)
    ensures DecimalValue(a) == DecimalValue(b) ==> a == b
  {
    if a != [] {
      var a', b' := a[..|a| - 1], b[..|b| - 1];
      var c, e := a[|a| - 1], b[|b| - 1];
      assert a == a' + [c] && b == b' + [e];
      NumeralOrder(a', b');
      var va, vb := DecimalValue(a'), DecimalValue(b');
      if va < vb {
        StrLessSuffix(a', b', [c], [e]);
      } else if va == vb {
        if DigitValue(c) < DigitValue(e) {
          assert StrLess([c], [e]);
          StrLessPrefix(a', [c], [e]);
        }
      } else {
        assert va * 10 >= vb * 10 + 10;
      }
    }
  }

  lemma ConcatAssoc(a: string, b: string, c: string)
    ensures a + b + c == a + (b + c)
  {
  }

  /** Below 10000 the counter of a frame name takes exactly its four digits. */
  lemma CounterWidth(i: nat)
    requires i < 10000
    ensures |ZFill(Str(i), FrameWidth)| == FrameWidth
  {
    assert Pow10(2) == 100;
    assert Pow10(4) == 10000;
    StrLength(i, FrameWidth);
  }

  /** The extractor's frames sort in the order it wrote them, while the counter fits
      its four digits. */
  lemma FrameOrder(i: nat, j: nat)
    requires i < j < 10000
    ensures StrLess(FrameName(i), FrameName(j))
  {
    var pi, pj := ZFill(Str(i), FrameWidth), ZFill(Str(j), FrameWidth);
    CounterWidth(i);
    CounterWidth(j);
    PaddedValue(i, FrameWidth);
    PaddedValue(j, FrameWidth);
    NumeralOrder(pi, pj);
    StrLessSuffix(pi, pj, ".jpg", ".jpg");
    StrLessPrefix("frame_", pi + ".jpg", pj + ".jpg");
    ConcatAssoc("frame_", pi, ".jpg");
    ConcatAssoc("frame_", pj, ".jpg");
  }

  /** Past 9999 frames the counter widens and string order no longer follows it:
      `frame_10000.jpg` sorts before `frame_9999.jpg`. */
  lemma FrameOrderPastWidth()
    ensures StrLess(FrameName(10000), FrameName(9999))
  {
    assert Str(10000) == "10000" by {
      assert Str(1) == "1";
      assert Str(10) == Str(1) + "0";
      assert Str(100) == Str(10) + "0";
      assert Str(1000) == Str(100) + "0";
      assert Str(10000) == Str(1000) + "0";
    }
    assert Str(9999) == "9999" by {
      assert Str(9) == "9";
      assert Str(99) == Str(9) + "9";
      assert Str(999) == Str(99) + "9";
      assert Str(9999) == Str(999) + "9";
    }
    assert ZFill("10000", FrameWidth) == "10000" && ZFill("9999", FrameWidth) == "9999";
    assert FrameName(10000) == "frame_" + "10000" + ".jpg";
    assert FrameName(9999) == "frame_" + "9999" + ".jpg";
    ConcatAssoc("frame_", "10000", ".jpg");
    ConcatAssoc("frame_", "9999", ".jpg");
    assert "10000" + ".jpg" == "10000.jpg" && "9999" + ".jpg" == "9999.jpg";
    assert StrLess("10000.jpg", "9999.jpg");
    StrLessPrefix("frame_", "10000.jpg", "9999.jpg");
  }

  /** The frame names of an extractor output of `n` frames, in writing order. */
  function FrameSeq(n: nat): (names: seq<string>)
    ensures |names| == n
    ensures forall k | 0 <= k < n :: names[k] == FrameName(k + 1)
  {
    if n == 0 then [] else FrameSeq(n - 1) + [FrameName(n)]
  }

  /** A frame name differs from every earlier one. */
  lemma FrameNameFresh(out: seq<File>)
    requires out != []
    ensures FrameName(|out|) !in FrameFiles(out[..|out| - 1]).Keys
  {
    var n := |out|;
    if FrameName(n) in FrameFiles(out[..n - 1]).Keys {
      var i :| 1 <= i <= n - 1 && FrameName(i) == FrameName(n);
      FrameNameInjective(i, n);
    }
  }

  /** Each frame the extractor writes adds one new name to the folder. */
  lemma FrameFilesStep(out: seq<File>)
    requires out != []
    ensures FrameFiles(out).Keys == FrameFiles(out[..|out| - 1]).Keys + {FrameName(|out|)}
    ensures FrameName(|out|) !in FrameFiles(out[..|out| - 1]).Keys
  {
    FrameNameFresh(out);
  }

  lemma {:induction false} FrameSeqEnumerates(out: seq<File>)
    ensures Enumerates(FrameSeq(|out|), FrameFiles(out).Keys)
  {
    if out != [] {
      var n := |out|;
      var prev := out[..n - 1];
      FrameSeqEnumerates(prev);
      FrameFilesStep(out);
      EnumeratesAppend(FrameSeq(n - 1), FrameFiles(prev).Keys, FrameName(n));
    }
  }

  /** The `.jpg` files of a fresh extractor output, sorted, are the frames in writing
      order (below 10000 frames). */
  lemma FramesSortInWritingOrder(out: seq<File>)
    requires |out| < 10000
    ensures JpgNames(FrameFiles(out)) == FrameFiles(out).Keys
    ensures SortedNames(JpgNames(FrameFiles(out))) == FrameSeq(|out|)
  {
    var m := FrameFiles(out);
    forall i | 1 <= i <= |out| ensures IsJpg(FrameName(i)) {
      FrameNameShape(i);
    }
    assert JpgNames(m) == m.Keys;
    var a := FrameSeq(|out|);
    FrameSeqEnumerates(out);
    forall i, j | 0 <= i < j < |a| ensures StrLess(a[i], a[j]) {
      FrameOrder(i + 1, j + 1);
    }
    AscendingUnique(a, SortedNames(m.Keys));
  }
}
