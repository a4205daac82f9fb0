/** What one job of `main` does to the output folder, from start to end, and the job
    loop of `main`. */
module Jobs {
  import opened Naming
  import opened Sorting
  import opened Disk
  import opened Stages

  /** How a job ends once its extraction returned: through `images_to_pdf`'s outcome. */
  lemma JobSteps(d: Disk, stem: string, pdf: string, out: seq<File>, d1: Disk, d2: Disk, assembled: Outcome<bool>)
    requires ExtractFramesEffect(d, stem, out) == (d1, Returned(true))
    requires ImagesToPdfEffect(d1, stem, pdf) == (d2, assembled)
    ensures JobEffect(d, stem, pdf, out)
         == if assembled == Raised then (d2, false) else (DeleteFramesEffect(d2, stem), true)
  {
  }

  /** A job on a fresh folder and PDF whose frames all decode writes the PDF and
      leaves nothing else behind. */
  lemma FreshJob(d: Disk, stem: string, pdf: string, out: seq<File>)
    requires !d.Exists(stem) && !d.Exists(pdf) && stem != pdf
    requires 0 < |out| < 10000
    requires forall k | 0 <= k < |out| :: out[k].Picture?
    ensures JobEffect(d, stem, pdf, out) == (d.(files := d.files[pdf := Document(FramePages(out))]), true)
  {
    var d1 := d.(folders := d.folders[stem := FrameFiles(out)]);
    var d2 := d1.(files := d1.files[pdf := Document(FramePages(out))]);
    FreshFolderExtracted(d, stem, out);
    FreshJobAssembles(d, stem, pdf, out, d1, d2);
    FreshJobCleansUp(d, stem, pdf, out, Document(FramePages(out)), d1, d2);
    JobSteps(d, stem, pdf, out, d1, d2, Returned(true));
  }

  /** Assembly after a fresh job's extraction (`d1`) writes the PDF (`d2`). */
  lemma FreshJobAssembles(d: Disk, stem: string, pdf: string, out: seq<File>, d1: Disk, d2: Disk)
    requires !d.Exists(pdf) && stem != pdf
    requires 0 < |out| < 10000
    requires forall k | 0 <= k < |out| :: out[k].Picture?
    requires d1 == d.(folders := d.folders[stem := FrameFiles(out)])
    requires d2 == d1.(files := d1.files[pdf := Document(FramePages(out))])
    ensures ImagesToPdfEffect(d1, stem, pdf) == (d2, Returned(true))
  {
    AssembleFreshFrames(d1, stem, pdf, out);
  }

  /** Deleting the frames after a fresh job's assembly (`d2`, holding the PDF `doc`)
      leaves only the PDF. */
  lemma FreshJobCleansUp(d: Disk, stem: string, pdf: string, out: seq<File>, doc: File, d1: Disk, d2: Disk)
    requires !d.Exists(stem)
    requires d1 == d.(folders := d.folders[stem := FrameFiles(out)])
    requires d2 == d1.(files := d1.files[pdf := doc])
    ensures DeleteFramesEffect(d2, stem) == d.(files := d.files[pdf := doc])
  {
    FreshFolderDeleted(d, stem, out, d1);
    DeleteKeepsFiles(d1, stem, d2.files);
  }

  /** A job on a fresh folder and PDF whose frames all decode, however many there
      are, returns True and changes nothing but the PDF. */
  lemma FreshJobWritesPdf(d: Disk, stem: string, pdf: string, out: seq<File>)
    requires !d.Exists(stem) && !d.Exists(pdf) && stem != pdf
    requires 0 < |out|
    requires forall k | 0 <= k < |out| :: out[k].Picture?
    ensures exists doc :: JobEffect(d, stem, pdf, out) == (d.WithFile(pdf, doc), true)
  {
    var d1 := d.(folders := d.folders[stem := FrameFiles(out)]);
    FreshFolderExtracted(d, stem, out);
    AssembleFreshOutput(d1, stem, pdf, out);
    var doc :| ImagesToPdfEffect(d1, stem, pdf) == (d1.WithFile(pdf, doc), Returned(true));
    var d2 := d1.(files := d1.files[pdf := doc]);
    FreshJobCleansUp(d, stem, pdf, out, doc, d1, d2);
    JobSteps(d, stem, pdf, out, d1, d2, Returned(true));
    assert JobEffect(d, stem, pdf, out) == (d.WithFile(pdf, doc), true);
  }

  /** A job on a fresh folder and PDF with an undecodable frame keeps the frames and
      writes no PDF. */
  lemma BadFrameJob(d: Disk, stem: string, pdf: string, out: seq<File>, k: nat)
    requires !d.Exists(stem) && !d.Exists(pdf) && stem != pdf
    requires k < |out| && !out[k].Picture?
    ensures JobEffect(d, stem, pdf, out) == (d.(folders := d.folders[stem := FrameFiles(out)]), false)
  {
    var d1 := d.(folders := d.folders[stem := FrameFiles(out)]);
    FreshFolderExtracted(d, stem, out);
    BadFrameAssembles(d, stem, pdf, out, k, d1);
    JobSteps(d, stem, pdf, out, d1, d1, Raised);
  }

  /** Assembly after a fresh job's extraction (`d1`) with an undecodable frame. */
  lemma BadFrameAssembles(d: Disk, stem: string, pdf: string, out: seq<File>, k: nat, d1: Disk)
    requires !d.Exists(pdf) && stem != pdf
    requires k < |out| && !out[k].Picture?
    requires d1 == d.(folders := d.folders[stem := FrameFiles(out)])
    ensures ImagesToPdfEffect(d1, stem, pdf) == (d1, Raised)
  {
    assert d1.FolderAt(stem) == FrameFiles(out);
    assert !d1.Exists(pdf);
    AssembleBadFrame(d1, stem, pdf, out, k);
  }

  /** When the extractor produces nothing (a failing `ffmpeg` is not noticed), the job
      still returns True, writes no PDF, and removes the folder it made. */
  lemma ProcessVideoWithoutFrames(d: Disk, video: string)
    requires !d.Exists(JobStem(ExtractNumber(video)))
    ensures ProcessVideoEffect(d, video, []) == (d, true)
  {
    var key := ExtractNumber(video);
    var stem, pdf := JobStem(key), PdfName(key);
    var d1 := d.(folders := d.folders[stem := map[]]);
    EmptyJobStages(d, stem, pdf, d1);
    JobSteps(d, stem, pdf, [], d1, d1, ImagesToPdfEffect(d1, stem, pdf).1);
  }

  /** A fresh job whose frames all decode: the job returns True, writes one PDF with
      one page per frame in the order the extractor wrote them, and leaves no frame
      folder behind. */
  lemma ProcessVideoFreshJob(d: Disk, video: string, out: seq<File>)
    requires var key := ExtractNumber(video);
      !d.Exists(JobStem(key)) && !d.Exists(PdfName(key))
    requires 0 < |out| < 10000
    requires forall k | 0 <= k < |out| :: out[k].Picture?
    ensures ProcessVideoEffect(d, video, out)
         == (d.(files := d.files[PdfName(ExtractNumber(video)) := Document(FramePages(out))]), true)
  {
    var key := ExtractNumber(video);
    JobNamesDisjoint(key, key);
    FreshJob(d, JobStem(key), PdfName(key), out);
  }

  /** A fresh job with a frame the imaging library cannot decode: the exception ends
      the job with False before `delete_frames`, so the frames stay and no PDF is
      written. */
  lemma ProcessVideoBadFrame(d: Disk, video: string, out: seq<File>, k: nat)
    requires var key := ExtractNumber(video);
      !d.Exists(JobStem(key)) && !d.Exists(PdfName(key))
    requires k < |out| && !out[k].Picture?
    ensures ProcessVideoEffect(d, video, out)
         == (d.(folders := d.folders[JobStem(ExtractNumber(video)) := FrameFiles(out)]), false)
  {
    var key := ExtractNumber(video);
    JobNamesDisjoint(key, key);
    BadFrameJob(d, JobStem(key), PdfName(key), out, k);
  }

  /** Two videos with the same key share a frame folder and a PDF: once the first
      one's fresh job (leaving `d1`) has written the PDF with its own frames, the
      second one's job returns True and changes nothing, so the second video's frames
      never reach any PDF. */
  lemma SameKeyCollides(d: Disk, a: string, outA: seq<File>, b: string, outB: seq<File>, d1: Disk)
    requires ExtractNumber(a) == ExtractNumber(b)
    requires var key := ExtractNumber(a);
      !d.Exists(JobStem(key)) && !d.Exists(PdfName(key))
    requires 0 < |outA|
    requires forall k | 0 <= k < |outA| :: outA[k].Picture?
    requires d1 == ProcessVideoEffect(d, a, outA).0
    ensures ProcessVideoEffect(d1, b, outB) == (d1, true)
  {
    var key := ExtractNumber(a);
    JobNamesDisjoint(key, key);
    FreshJobWritesPdf(d, JobStem(key), PdfName(key), outA);
    var doc :| JobEffect(d, JobStem(key), PdfName(key), outA) == (d.WithFile(PdfName(key), doc), true);
    ResumeAfterPdf(d, b, key, doc, outB);
  }

  /** All videos without a leading number share the key `NoNumber`: once the first
      one's fresh job has written `999999999.pdf`, the job of any other of them
      returns True and changes nothing, so only the first one's frames reach a PDF. */
  lemma UnnumberedVideosCollide(d: Disk, a: string, outA: seq<File>, b: string, outB: seq<File>, d1: Disk)
    requires a == [] || !IsDigit(a[0])
    requires b == [] || !IsDigit(b[0])
    requires !d.Exists("999999999") && !d.Exists("999999999.pdf")
    requires 0 < |outA|
    requires forall k | 0 <= k < |outA| :: outA[k].Picture?
    requires d1 == ProcessVideoEffect(d, a, outA).0
    ensures ProcessVideoEffect(d1, b, outB) == (d1, true)
  {
    NoNumberStem();
    SameKeyCollides(d, a, outA, b, outB, d1);
  }

  /** A job whose folder is absent and whose PDF was just written changes nothing. */
  lemma ResumeAfterPdf(d: Disk, b: string, key: nat, doc: File, outB: seq<File>)
    requires ExtractNumber(b) == key && !d.Exists(JobStem(key))
    ensures ProcessVideoEffect(d.(files := d.files[PdfName(key) := doc]), b, outB)
         == (d.(files := d.files[PdfName(key) := doc]), true)
  {
    JobNamesDisjoint(key, key);
    ProcessVideoResumes(d.(files := d.files[PdfName(key) := doc]), b, outB);
  }

  // ---------------------------------------------------------------------------
  // The job loop of `main`

  /** One job of `main`: `process_video`, the extractor writing `extractor(v)` for
      video `v`. */
  ghost function ProcessVideoJob(extractor: string -> seq<File>): (Disk, string) -> (Disk, bool)
  {
    (d, v) => ProcessVideoEffect(d, v, extractor(v))
  }

  /** `ex.map(job, videos)` with the jobs run one after another, in the order of the
      video list: the output folder after the last job, and the jobs' results in video
      order. */
  ghost function RunJobs(d: Disk, videos: seq<string>, job: (Disk, string) -> (Disk, bool)): (r: (Disk, seq<bool>))
    ensures |r.1| == |videos|
  {
    if videos == [] then (d, [])
    else
      var before := RunJobs(d, videos[..|videos| - 1], job);
      var after := job(before.0, videos[|videos| - 1]);
      (after.0, before.1 + [after.1])
  }

  /** Running two lists of jobs one after the other is running their concatenation. */
  lemma {:induction false} RunJobsAppend(d: Disk, a: seq<string>, b: seq<string>, job: (Disk, string) -> (Disk, bool))
    ensures var first := RunJobs(d, a, job);
      var second := RunJobs(first.0, b, job);
      RunJobs(d, a + b, job) == (second.0, first.1 + second.1)
    decreases |b|
  {
    if b == [] {
      assert a + b == a;
      assert RunJobs(d, a, job).1 + [] == RunJobs(d, a, job).1;
    } else {
      var b' := b[..|b| - 1];
      assert (a + b)[..|a + b| - 1] == a + b';
      assert (a + b)[|a + b| - 1] == b[|b| - 1];
      RunJobsAppend(d, a, b', job);
      var first := RunJobs(d, a, job);
      var mid := RunJobs(first.0, b', job);
      var last := job(mid.0, b[|b| - 1]);
      assert RunJobs(first.0, b, job) == (last.0, mid.1 + [last.1]);
      assert RunJobs(d, a + b, job) == (last.0, (first.1 + mid.1) + [last.1]);
      assert (first.1 + mid.1) + [last.1] == first.1 + (mid.1 + [last.1]);
    }
  }

  /** Jobs for `a` and `b` started from `e` end the same in either order. */
  ghost predicate JobsCommute(job: (Disk, string) -> (Disk, bool), e: Disk, a: string, b: string)
  {
    var x, x' := job(e, a), job(e, b);
    var y, y' := job(x.0, b), job(x'.0, a);
    y.0 == y'.0 && x.1 == y'.1 && y.1 == x'.1
  }

  /** `process_video` jobs for videos with different keys commute. */
  lemma ProcessVideoJobsCommute(extractor: string -> seq<File>, a: string, b: string)
    requires ExtractNumber(a) != ExtractNumber(b)
    ensures forall e :: JobsCommute(ProcessVideoJob(extractor), e, a, b)
  {
    forall e ensures JobsCommute(ProcessVideoJob(extractor), e, a, b) {
      ProcessVideoCommute(e, a, extractor(a), b, extractor(b));
    }
  }

  /** Two neighbouring jobs that commute can run in either order: the output folder
      ends the same and each job returns the same. */
  lemma RunJobsSwap(d: Disk, p: seq<string>, a: string, b: string, s: seq<string>, job: (Disk, string) -> (Disk, bool))
    requires forall e :: JobsCommute(job, e, a, b)
    ensures var ab := RunJobs(d, p + [a, b] + s, job);
      var ba := RunJobs(d, p + [b, a] + s, job);
      var n := |p|;
      && ab.0 == ba.0
      && ab.1 == ba.1[n := ba.1[n + 1]][n + 1 := ba.1[n]]
  {
    var dp := RunJobs(d, p, job);
    assert JobsCommute(job, dp.0, a, b);
    RunPair(dp.0, a, b, job);
    RunPair(dp.0, b, a, job);
    RunJobsAppend(d, p, [a, b], job);
    RunJobsAppend(d, p, [b, a], job);
    RunJobsAppend(d, p + [a, b], s, job);
    RunJobsAppend(d, p + [b, a], s, job);
    var x := job(dp.0, a);
    var y := job(x.0, b);
    SwapMiddle(dp.1, x.1, y.1, RunJobs(y.0, s, job).1);
  }

  /** Two jobs in a row. */
  lemma RunPair(e: Disk, a: string, b: string, job: (Disk, string) -> (Disk, bool))
    ensures RunJobs(e, [a, b], job)
         == (job(job(e, a).0, b).0, [job(e, a).1, job(job(e, a).0, b).1])
  {
    var x := job(e, a);
    var y := job(x.0, b);
    assert [a, b][..1] == [a] && [a][..0] == [];
    assert RunJobs(e, [], job) == (e, []);
    assert RunJobs(e, [a], job) == (x.0, [] + [x.1]);
    assert RunJobs(e, [a, b], job) == (y.0, [] + [x.1] + [y.1]);
    assert [] + [x.1] + [y.1] == [x.1, y.1];
  }

  lemma SwapMiddle<T>(p: seq<T>, u: T, v: T, s: seq<T>)
    ensures (p + [v, u] + s)[|p| := u][|p| + 1 := v] == p + [u, v] + s
  {
  }

  /** Jobs that each leave the folder as they found it and return True change nothing
      together. */
  lemma {:induction false} RunJobsUnchanged(d: Disk, videos: seq<string>, job: (Disk, string) -> (Disk, bool))
    requires forall v | v in videos :: job(d, v) == (d, true)
    ensures RunJobs(d, videos, job).0 == d
    ensures forall i | 0 <= i < |videos| :: RunJobs(d, videos, job).1[i]
  {
    if videos != [] {
      var pre := videos[..|videos| - 1];
      assert forall w | w in pre :: w in videos;
      RunJobsUnchanged(d, pre, job);
    }
  }

  /** Running `main` again after a run that left every video's PDF and no frame folder
      changes nothing, and every job returns True (though each re-runs the extractor). */
  lemma RerunChangesNothing(d: Disk, videos: seq<string>, extractor: string -> seq<File>)
    requires forall v | v in videos ::
      !d.Exists(JobStem(ExtractNumber(v))) && d.Exists(PdfName(ExtractNumber(v)))
    ensures RunJobs(d, videos, ProcessVideoJob(extractor)).0 == d
    ensures forall i | 0 <= i < |videos| :: RunJobs(d, videos, ProcessVideoJob(extractor)).1[i]
  {
    forall v | v in videos ensures ProcessVideoJob(extractor)(d, v) == (d, true) {
      ProcessVideoResumes(d, v, extractor(v));
    }
    RunJobsUnchanged(d, videos, ProcessVideoJob(extractor));
  }
}
