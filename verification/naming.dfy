/** Names the script derives from a video's file name: the numeric ordering key
    (`extract_number`), its zero-padded form (`str(n).zfill(3)`) used for a job's
    frame folder and PDF, and the frame names the extractor writes (`frame_%04d.jpg`). */
module Naming {

  /** Key of a name that does not start with a digit. It is an ordinary key: such a
      name sorts after names numbered below it, level with a name numbered
      999999999 and before names numbered above it, and every such name maps to the
      same stem `999999999`. */
  const NoNumber: nat := 999999999

  /** Width of the zero-padded job stem. */
  const StemWidth: nat := 3

  /** Width of the frame counter in `frame_%04d.jpg`. */
  const FrameWidth: nat := 4

  predicate IsDigit(c: char) { '0' <= c <= '9' }

  predicate AllDigits(s: string) { forall i | 0 <= i < |s| :: IsDigit(s[i]) }

  function DigitValue(c: char): (v: nat)
    requires IsDigit(c)
    ensures v < 10
  {
    c as int - '0' as int
  }

  function DigitChar(v: nat): (c: char)
    requires v < 10
    ensures IsDigit(c) && DigitValue(c) == v
    ensures c == '0' <==> v == 0
  {
    ('0' as int + v) as char
  }

  /** The value of a decimal numeral, most significant digit first (Python's `int`
      on a run of ASCII digits; leading zeros are allowed). */
  function DecimalValue(s: string): nat
    requires AllDigits(s)
  {
    if s == [] then 0 else DecimalValue(s[..|s| - 1]) * 10 + DigitValue(s[|s| - 1])
  }

  /** The decimal numeral of `n` without leading zeros (Python's `str(n)` for n >= 0). */
  function Str(n: nat): (s: string)
    ensures s != [] && AllDigits(s)
    ensures DecimalValue(s) == n
    ensures |s| > 1 ==> s[0] != '0'
    decreases n
  {
    if n < 10 then [DigitChar(n)] else Str(n / 10) + [DigitChar(n % 10)]
  }

  function Zeros(k: nat): (z: string)
    ensures |z| == k && AllDigits(z)
  {
    seq(k, _ => '0')
  }

  /** Python's `s.zfill(width)` on an unsigned string: left-pad with '0' up to `width`. */
  function ZFill(s: string, width: nat): (r: string)
    ensures |r| == if |s| < width then width else |s|
    ensures r[|r| - |s|..] == s
    ensures forall i | 0 <= i < |r| - |s| :: r[i] == '0'
  {
    if |s| < width then Zeros(width - |s|) + s else s
  }

  /** The longest run of digits at the start of `s` (what `re.match(r"(\d+)", s)`
      captures, restricted to ASCII digits). */
  function LeadingDigits(s: string): (run: string)
    ensures run <= s && AllDigits(run)
    ensures |run| < |s| ==> !IsDigit(s[|run|])
  {
    if s != [] && IsDigit(s[0]) then [s[0]] + LeadingDigits(s[1..]) else []
  }

  /** `extract_number`: the leading number of a name, or `NoNumber` when it has none. */
  function ExtractNumber(name: string): (key: nat)
    ensures name == [] || !IsDigit(name[0]) ==> key == NoNumber
  {
    var run := LeadingDigits(name);
    if run == [] then NoNumber else DecimalValue(run)
  }

  /** The stem shared by a job's frame folder and its PDF: `str(key).zfill(3)`. */
  function JobStem(key: nat): (stem: string)
    ensures AllDigits(stem)
    ensures |stem| == if |Str(key)| < StemWidth then StemWidth else |Str(key)|
  {
    ZFill(Str(key), StemWidth)
  }

  /** The name of a job's PDF inside the output folder: `f"{number}.pdf"`. */
  function PdfName(key: nat): string
  {
    JobStem(key) + ".pdf"
  }

  /** `Path.stem` of a name ending in ".pdf": the name without that suffix. */
  function Stem(name: string): (stem: string)
    ensures stem <= name
  {
    if EndsWith(name, ".pdf") then name[..|name| - 4] else name
  }

  /** The merge's ordering key of a PDF: `extract_number(f.stem)`. */
  function PdfKey(name: string): nat
  {
    ExtractNumber(Stem(name))
  }

  /** The name of the `i`-th frame the extractor writes, counting from 1. */
  function FrameName(i: nat): string
  {
    "frame_" + ZFill(Str(i), FrameWidth) + ".jpg"
  }

  predicate EndsWith(name: string, suffix: string)
  {
    |suffix| <= |name| && name[|name| - |suffix|..] == suffix
  }

  /** Matches the glob `*.jpg` (case-sensitive, `*` may be empty). */
  predicate IsJpg(name: string) { EndsWith(name, ".jpg") }

  /** Matches the glob `*.pdf`. */
  predicate IsPdf(name: string) { EndsWith(name, ".pdf") }

  /** Matches the glob `frame_*.jpg`. */
  predicate IsFrameFile(name: string)
  {
    |name| >= 10 && name[..6] == "frame_" && IsJpg(name)
  }

  // ---------------------------------------------------------------------------
  // extract_number

  lemma AllZerosValue(s: string)
    requires AllDigits(s)
    requires forall i | 0 <= i < |s| :: s[i] == '0'
    ensures DecimalValue(s) == 0
  {
    if s != [] {
      AllZerosValue(s[..|s| - 1]);
    }
  }

  lemma {:induction false} LeadingZerosValue(z: string, s: string)
    requires AllDigits(z) && AllDigits(s)
    requires forall i | 0 <= i < |z| :: z[i] == '0'
    ensures AllDigits(z + s) && DecimalValue(z + s) == DecimalValue(s)
  {
    if s == [] {
      assert z + s == z;
      AllZerosValue(z);
    } else {
      var t := s[..|s| - 1];
      assert (z + s)[..|z + s| - 1] == z + t;
      LeadingZerosValue(z, t);
    }
  }

  /** A name made of a non-empty digit run followed by something that does not start
      with a digit has that run's value as its key: `'012 Lecture.mp4'` gives 12. */
  lemma ExtractNumberOfRun(digits: string, rest: string)
    requires digits != [] && AllDigits(digits)
    requires rest == [] || !IsDigit(rest[0])
    ensures ExtractNumber(digits + rest) == DecimalValue(digits)
  {
    var s := digits + rest;
    var run := LeadingDigits(s);
    assert forall i | 0 <= i < |digits| :: IsDigit(s[i]);
    assert |digits| < |s| ==> !IsDigit(s[|digits|]);
    assert forall i | 0 <= i < |run| :: IsDigit(s[i]);
    assert |run| == |digits|;
    assert run == s[..|run|] == digits;
  }

  /** The docstring's own example. */
  lemma ExtractNumberExample()
    ensures ExtractNumber("012 Lecture.mp4") == 12
  {
    assert "012 Lecture.mp4" == "012" + " Lecture.mp4";
    ExtractNumberOfRun("012", " Lecture.mp4");
    assert "012"[..2] == "01" && "01"[..1] == "0" && "0"[..0] == [];
  }

  // ---------------------------------------------------------------------------
  // Job stems

  /** Zero padding does not change the value of a numeral. */
  lemma PaddedValue(n: nat, width: nat)
    ensures AllDigits(ZFill(Str(n), width))
    ensures DecimalValue(ZFill(Str(n), width)) == n
  {
    var s := Str(n);
    var padded := ZFill(s, width);
    var z := padded[..|padded| - |s|];
    assert padded == z + s;
    LeadingZerosValue(z, s);
  }

  /** Round trip: parsing the zero-padded stem of a key gives the key back, so the
      stem of a job's PDF re-parses to its video's key. */
  lemma JobStemRoundTrip(key: nat)
    ensures ExtractNumber(JobStem(key)) == key
  {
    var stem := JobStem(key);
    PaddedValue(key, StemWidth);
    ExtractNumberOfRun(stem, []);
    assert stem + [] == stem;
  }

  /** Different keys never share a stem: jobs with different keys use different
      folders and PDFs. */
  lemma JobStemInjective(a: nat, b: nat)
    requires JobStem(a) == JobStem(b)
    ensures a == b
  {
    JobStemRoundTrip(a);
    JobStemRoundTrip(b);
  }

  /** Every name without a leading number shares the stem `999999999` and the PDF
      `999999999.pdf`. */
  lemma NoNumberStem()
    ensures JobStem(NoNumber) == "999999999"
    ensures PdfName(NoNumber) == "999999999.pdf"
  {
    assert Str(9) == "9";
    assert Str(99) == Str(9) + "9";
    assert Str(999) == Str(99) + "9";
    assert Str(9999) == Str(999) + "9";
    assert Str(99999) == Str(9999) + "9";
    assert Str(999999) == Str(99999) + "9";
    assert Str(9999999) == Str(999999) + "9";
    assert Str(99999999) == Str(9999999) + "9";
    assert Str(999999999) == Str(99999999) + "9";
  }

  /** The merge re-parses a job PDF's stem to the job's key. */
  lemma PdfKeyRoundTrip(key: nat)
    ensures IsPdf(PdfName(key))
    ensures PdfKey(PdfName(key)) == key
  {
    var p := PdfName(key);
    assert p[|p| - 4..] == ".pdf";
    assert Stem(p) == JobStem(key);
    JobStemRoundTrip(key);
  }

  /** A job's folder name and PDF name are distinct from each other and from those of
      any job with another key, and neither is the merged output's name. */
  lemma JobNamesDisjoint(a: nat, b: nat)
    ensures JobStem(a) != PdfName(b)
    ensures a != b ==> JobStem(a) != JobStem(b) && PdfName(a) != PdfName(b)
    ensures JobStem(a) != "final_merged.pdf" && PdfName(a) != "final_merged.pdf"
  {
    var p := PdfName(b);
    assert p[|p| - 4] == '.';
    assert !IsDigit(p[|p| - 4]);
    if a != b && PdfName(a) == PdfName(b) {
      assert JobStem(a) == PdfName(a)[..|PdfName(a)| - 4];
      JobStemInjective(a, b);
    }
    assert !IsDigit("final_merged.pdf"[0]);
    assert JobStem(a) != [] ==> IsDigit(JobStem(a)[0]);
    assert IsDigit(PdfName(a)[0]);
  }

  // ---------------------------------------------------------------------------
  // Frame names

  lemma FrameNameShape(i: nat)
    ensures IsFrameFile(FrameName(i)) && IsJpg(FrameName(i))
  {
    var f := FrameName(i);
    assert f[..6] == "frame_";
    assert f[|f| - 4..] == ".jpg";
  }

  /** The extractor's counter inside a frame name: the digits between "frame_" and
      ".jpg". */
  lemma FrameNameCounter(i: nat)
    ensures var f := FrameName(i); |f| >= 10 && f[6..|f| - 4] == ZFill(Str(i), FrameWidth)
  {
    var p := ZFill(Str(i), FrameWidth);
    var f := FrameName(i);
    assert f == "frame_" + p + ".jpg";
    assert f[6..|f| - 4] == p;
  }

  lemma FrameNameInjective(i: nat, j: nat)
    requires FrameName(i) == FrameName(j)
    ensures i == j
  {
    FrameNameCounter(i);
    FrameNameCounter(j);
    PaddedValue(i, FrameWidth);
    PaddedValue(j, FrameWidth);
  }
}
