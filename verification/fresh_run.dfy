/** A first run of `main` over videos with distinct keys: what the jobs write and what
    the merge then makes of it. */
module FreshRun {
  import opened Naming
  import opened Sorting
  import opened Disk
  import opened Stages
  import opened Jobs
  import opened Merge

  // ---------------------------------------------------------------------------
  // Documents written under distinct names

  /** The files that writing `docs[i]` under `names[i]`, in list order, creates. */
  ghost function Written(names: seq<string>, docs: seq<seq<Page>>): (m: map<string, File>)
    requires |names| == |docs|
  {
    if names == [] then map[]
    else
      var k := |names| - 1;
      Written(names[..k], docs[..k])[names[k] := Document(docs[k])]
  }

  /** Under distinct names, each name holds its own document. */
  lemma {:induction false} WrittenContent(names: seq<string>, docs: seq<seq<Page>>)
    requires |names| == |docs|
    requires forall i, j | 0 <= i < j < |names| :: names[i] != names[j]
    ensures forall i | 0 <= i < |names| ::
      names[i] in Written(names, docs) && Written(names, docs)[names[i]] == Document(docs[i])
  {
    if names != [] {
      var k := |names| - 1;
      WrittenContent(names[..k], docs[..k]);
    }
  }

  /** Exactly the listed names are written. */
  lemma {:induction false} WrittenKeys(names: seq<string>, docs: seq<seq<Page>>)
    requires |names| == |docs|
    ensures Written(names, docs).Keys == Members(names)
  {
    if names != [] {
      var k := |names| - 1;
      WrittenKeys(names[..k], docs[..k]);
      assert names == names[..k] + [names[k]];
      assert Members(names) == (Members(names[..k])) + {names[k]};
    }
  }

  /** The documents' pages, one document after another. */
  function Flatten(docs: seq<seq<Page>>): seq<Page>
  {
    if docs == [] then [] else Flatten(docs[..|docs| - 1]) + docs[|docs| - 1]
  }

  /** Reading documents stored under `names` gives their pages, in list order. */
  lemma {:induction false} ConcatWritten(files: map<string, File>, names: seq<string>, docs: seq<seq<Page>>)
    requires |names| == |docs|
    requires forall i | 0 <= i < |names| :: names[i] in files && files[names[i]] == Document(docs[i])
    ensures AllDocuments(files, names)
    ensures Concat(files, names) == Flatten(docs)
  {
    if names != [] {
      var k := |names| - 1;
      ConcatWritten(files, names[..k], docs[..k]);
    }
  }

  /** From any folder where `stem` and `name` are free, the job for `video` returns
      True having written `doc` under `name` and nothing else. */
  ghost predicate WritesOwn(job: (Disk, string) -> (Disk, bool), video: string, stem: string, name: string, doc: seq<Page>)
  {
    forall e: Disk | !e.Exists(stem) && !e.Exists(name) ::
      job(e, video) == (e.(files := e.files[name := Document(doc)]), true)
  }

  /** One more such job after the others adds its document. */
  lemma FreshJobStep(d: Disk, pre: seq<string>, v: string, job: (Disk, string) -> (Disk, bool),
                     m: map<string, File>, results: seq<bool>, stem: string, name: string, doc: seq<Page>)
    requires RunJobs(d, pre, job) == (d.(files := d.files + m), results)
    requires !d.Exists(stem) && !d.Exists(name) && stem !in m && name !in m
    requires WritesOwn(job, v, stem, name, doc)
    ensures RunJobs(d, pre + [v], job) == (d.(files := d.files + m[name := Document(doc)]), results + [true])
  {
    var e := d.(files := d.files + m);
    assert (pre + [v])[..|pre|] == pre;
    assert job(e, v) == (e.(files := e.files[name := Document(doc)]), true);
    assert (d.files + m)[name := Document(doc)] == d.files + m[name := Document(doc)];
  }

  lemma PrefixSnoc<T>(s: seq<T>, n: nat)
    requires 0 < n <= |s|
    ensures s[..n - 1] + [s[n - 1]] == s[..n] && s[..n][..n - 1] == s[..n - 1] && s[..n][n - 1] == s[n - 1]
  {
  }

  lemma WholePrefix<T>(s: seq<T>)
    ensures s[..|s|] == s
  {
  }

  /** The first `n` of jobs that each write one new document under a name of their
      own add the first `n` documents. */
  lemma {:induction false} RunFreshJobsPrefix(d: Disk, videos: seq<string>, job: (Disk, string) -> (Disk, bool),
                                               stems: seq<string>, names: seq<string>, docs: seq<seq<Page>>, n: nat)
    requires |stems| == |names| == |docs| == |videos|
    requires forall i, j | 0 <= i < j < |names| :: names[i] != names[j]
    requires forall i, j | 0 <= i < |stems| && 0 <= j < |names| :: stems[i] != names[j]
    requires forall i | 0 <= i < |videos| :: !d.Exists(stems[i]) && !d.Exists(names[i])
    requires forall i | 0 <= i < |videos| :: WritesOwn(job, videos[i], stems[i], names[i], docs[i])
    requires n <= |videos|
    ensures RunJobs(d, videos[..n], job).0 == d.(files := d.files + Written(names[..n], docs[..n]))
    ensures forall i | 0 <= i < n :: RunJobs(d, videos[..n], job).1[i]
    decreases n
  {
    if n == 0 {
      assert d.files + map[] == d.files;
    } else {
      var k := n - 1;
      RunFreshJobsPrefix(d, videos, job, stems, names, docs, k);
      WrittenKeys(names[..k], docs[..k]);
      var before := RunJobs(d, videos[..k], job);
      assert WritesOwn(job, videos[k], stems[k], names[k], docs[k]);
      FreshJobStep(d, videos[..k], videos[k], job, Written(names[..k], docs[..k]), before.1, stems[k], names[k], docs[k]);
      PrefixSnoc(videos, n);
      PrefixSnoc(names, n);
      PrefixSnoc(docs, n);
    }
  }

  /** Jobs that each write one new document under a name of their own, and leave
      nothing else behind, together add exactly those documents. */
  lemma RunFreshJobs(d: Disk, videos: seq<string>, job: (Disk, string) -> (Disk, bool),
                     stems: seq<string>, names: seq<string>, docs: seq<seq<Page>>)
    requires |stems| == |names| == |docs| == |videos|
    requires forall i, j | 0 <= i < j < |names| :: names[i] != names[j]
    requires forall i, j | 0 <= i < |stems| && 0 <= j < |names| :: stems[i] != names[j]
    requires forall i | 0 <= i < |videos| :: !d.Exists(stems[i]) && !d.Exists(names[i])
    requires forall i | 0 <= i < |videos| :: WritesOwn(job, videos[i], stems[i], names[i], docs[i])
    ensures RunJobs(d, videos, job).0 == d.(files := d.files + Written(names, docs))
    ensures forall i | 0 <= i < |videos| :: RunJobs(d, videos, job).1[i]
  {
    RunFreshJobsPrefix(d, videos, job, stems, names, docs, |videos|);
    WholePrefix(videos);
    WholePrefix(names);
    WholePrefix(docs);
  }

  // ---------------------------------------------------------------------------
  // The jobs of a fresh run

  /** An extractor output of at least one frame, every frame decodable, within the
      four digits of the frame counter. */
  predicate GoodOutput(out: seq<File>)
  {
    0 < |out| < 10000 && forall k | 0 <= k < |out| :: out[k].Picture?
  }

  /** The keys of the listed videos, in list order. */
  function Keys(videos: seq<string>): (keys: seq<nat>)
    ensures |keys| == |videos|
    ensures forall i | 0 <= i < |videos| :: keys[i] == ExtractNumber(videos[i])
  {
    if videos == [] then [] else Keys(videos[..|videos| - 1]) + [ExtractNumber(videos[|videos| - 1])]
  }

  /** The frame folders of the jobs for `keys`, in that order. */
  function JobStems(keys: seq<nat>): (stems: seq<string>)
    ensures |stems| == |keys|
    ensures forall i | 0 <= i < |keys| :: stems[i] == JobStem(keys[i])
  {
    if keys == [] then [] else JobStems(keys[..|keys| - 1]) + [JobStem(keys[|keys| - 1])]
  }

  /** Each video's frames, as the pages of its PDF. */
  function FramesOf(videos: seq<string>, extractor: string -> seq<File>): (docs: seq<seq<Page>>)
    requires forall i | 0 <= i < |videos| :: GoodOutput(extractor(videos[i]))
    ensures |docs| == |videos|
    ensures forall i | 0 <= i < |videos| ::
      GoodOutput(extractor(videos[i])) && docs[i] == FramePages(extractor(videos[i]))
  {
    if videos == [] then []
    else
      var k := |videos| - 1;
      assert GoodOutput(extractor(videos[k]));
      FramesOf(videos[..k], extractor) + [FramePages(extractor(videos[k]))]
  }

  /** Different keys name different PDFs and folders, and no folder is named as a PDF. */
  lemma JobNamesApart(keys: seq<nat>)
    requires forall i, j | 0 <= i < j < |keys| :: keys[i] != keys[j]
    ensures forall i, j | 0 <= i < j < |keys| :: PdfNames(keys)[i] != PdfNames(keys)[j]
    ensures forall i, j | 0 <= i < |keys| && 0 <= j < |keys| :: JobStems(keys)[i] != PdfNames(keys)[j]
  {
    var stems, names := JobStems(keys), PdfNames(keys);
    forall i, j | 0 <= i < |keys| && 0 <= j < |keys|
      ensures stems[i] != names[j] && (i != j ==> names[i] != names[j])
    {
      JobNamesDisjoint(keys[i], keys[j]);
    }
  }

  /** Distinct keys have distinct PDF names. */
  lemma PdfNamesDistinct(keys: seq<nat>)
    requires forall i, j | 0 <= i < j < |keys| :: keys[i] != keys[j]
    ensures forall i, j | 0 <= i < j < |keys| :: PdfNames(keys)[i] != PdfNames(keys)[j]
  {
    forall i, j | 0 <= i < j < |keys| ensures PdfNames(keys)[i] != PdfNames(keys)[j] {
      JobNamesDisjoint(keys[i], keys[j]);
    }
  }

  /** A job whose extractor output decodes writes its own PDF and nothing else. */
  lemma ProcessVideoWritesOwn(extractor: string -> seq<File>, video: string, key: nat)
    requires ExtractNumber(video) == key
    requires GoodOutput(extractor(video))
    ensures WritesOwn(ProcessVideoJob(extractor), video, JobStem(key), PdfName(key), FramePages(extractor(video)))
  {
    forall e: Disk | !e.Exists(JobStem(key)) && !e.Exists(PdfName(key))
      ensures ProcessVideoJob(extractor)(e, video)
           == (e.(files := e.files[PdfName(key) := Document(FramePages(extractor(video)))]), true)
    {
      ProcessVideoFreshJob(e, video, extractor(video));
    }
  }

  /** A fresh run over videos with distinct keys whose extractor outputs all decode:
      every job returns True, and the only change is one new PDF per video, holding
      that video's frames in extraction order; no frame folder is left behind. */
  lemma FreshJobs(d: Disk, videos: seq<string>, keys: seq<nat>, extractor: string -> seq<File>)
    requires |keys| == |videos| && forall i | 0 <= i < |videos| :: ExtractNumber(videos[i]) == keys[i]
    requires forall i, j | 0 <= i < j < |keys| :: keys[i] != keys[j]
    requires forall i | 0 <= i < |keys| :: !d.Exists(JobStem(keys[i])) && !d.Exists(PdfName(keys[i]))
    requires forall i | 0 <= i < |videos| :: GoodOutput(extractor(videos[i]))
    ensures RunJobs(d, videos, ProcessVideoJob(extractor)).0
         == d.(files := d.files + Written(PdfNames(keys), FramesOf(videos, extractor)))
    ensures forall i | 0 <= i < |videos| :: RunJobs(d, videos, ProcessVideoJob(extractor)).1[i]
  {
    var stems, names, docs := JobStems(keys), PdfNames(keys), FramesOf(videos, extractor);
    var job := ProcessVideoJob(extractor);
    JobNamesApart(keys);
    forall i | 0 <= i < |videos| ensures WritesOwn(job, videos[i], stems[i], names[i], docs[i]) {
      ProcessVideoWritesOwn(extractor, videos[i], keys[i]);
    }
    RunFreshJobs(d, videos, job, stems, names, docs);
  }

  /** Adding PDFs to a folder that held none makes them its only PDFs. */
  lemma PdfEntriesAdded(d: Disk, m: map<string, File>, names: seq<string>)
    requires d.PdfEntries() == {}
    requires m.Keys == Members(names)
    requires forall i | 0 <= i < |names| :: IsPdf(names[i])
    ensures d.(files := d.files + m).PdfEntries() == Members(names)
  {
    assert forall n | n in d.files && IsPdf(n) :: n in d.PdfEntries();
  }

  /** Job PDFs are PDFs, and none is the merged file. */
  lemma JobPdfNames(keys: seq<nat>)
    ensures forall i | 0 <= i < |keys| :: IsPdf(PdfNames(keys)[i]) && PdfNames(keys)[i] != MergedName
  {
    forall i | 0 <= i < |keys| ensures IsPdf(PdfNames(keys)[i]) && PdfNames(keys)[i] != MergedName {
      PdfKeyRoundTrip(keys[i]);
      JobNamesDisjoint(keys[i], keys[i]);
    }
  }

  /** A folder holding no PDF holds no job PDF. */
  lemma NoJobPdfs(d: Disk, keys: seq<nat>)
    requires d.PdfEntries() == {}
    ensures forall i | 0 <= i < |keys| :: !d.Exists(PdfName(keys[i]))
  {
    forall i | 0 <= i < |keys| ensures !d.Exists(PdfName(keys[i])) {
      PdfKeyRoundTrip(keys[i]);
      assert PdfName(keys[i]) !in d.PdfEntries();
    }
  }

  /** Job PDFs newly written to a folder that held no PDF are its only PDFs, and the
      merged file is not among them. */
  lemma JobPdfsWritten(d: Disk, keys: seq<nat>, docs: seq<seq<Page>>)
    requires |docs| == |keys|
    requires d.PdfEntries() == {} && !d.Exists(MergedName)
    ensures d.(files := d.files + Written(PdfNames(keys), docs)).PdfEntries() == Members(PdfNames(keys))
    ensures !d.(files := d.files + Written(PdfNames(keys), docs)).Exists(MergedName)
  {
    var names := PdfNames(keys);
    JobPdfNames(keys);
    WrittenKeys(names, docs);
    PdfEntriesAdded(d, Written(names, docs), names);
  }

  /** A glob listing of job PDFs with strictly ascending keys is merged in key order. */
  lemma JobPdfsInMergeOrder(keys: seq<nat>, listing: seq<string>)
    requires forall i, j | 0 <= i < j < |keys| :: keys[i] < keys[j]
    requires Enumerates(listing, Members(PdfNames(keys)))
    ensures MergeOrder(listing) == PdfNames(keys)
  {
    JobPdfsListed(keys, listing);
    MergeOrderOfJobPdfs(listing, keys);
  }

  /** A glob listing of the job PDFs lists each job PDF once. */
  lemma JobPdfsListed(keys: seq<nat>, listing: seq<string>)
    requires forall i, j | 0 <= i < j < |keys| :: keys[i] != keys[j]
    requires Enumerates(listing, Members(PdfNames(keys)))
    ensures multiset(listing) == multiset(PdfNames(keys))
  {
    PdfNamesDistinct(keys);
    DistinctEnumerates(PdfNames(keys));
  }

  /** The merge over a folder `run` whose only PDFs are job PDFs of strictly ascending
      keys, newly written to `d`: it writes their pages in key order. */
  lemma MergeOfJobPdfs(d: Disk, run: Disk, keys: seq<nat>, docs: seq<seq<Page>>, listing: seq<string>)
    requires |docs| == |keys|
    requires forall i, j | 0 <= i < j < |keys| :: keys[i] < keys[j]
    requires d.PdfEntries() == {} && !d.Exists(MergedName)
    requires run == d.(files := d.files + Written(PdfNames(keys), docs))
    requires Enumerates(listing, run.PdfEntries())
    ensures MergeEffect(run, listing) == (run.(files := run.files[MergedName := Document(Flatten(docs))]), Returned(()))
  {
    var names := PdfNames(keys);
    JobPdfsWritten(d, keys, docs);
    JobPdfsInMergeOrder(keys, listing);
    JobNamesApart(keys);
    WrittenContent(names, docs);
    ConcatWritten(run.files, names, docs);
  }

  /** The end-to-end promise of a first run over videos listed by strictly ascending
      key, each producing decodable frames, into an output folder holding no PDF and
      none of the jobs' frame folders: whatever order the glob lists the PDFs in, the
      merge writes `final_merged.pdf` holding every video's frames, video after video
      in key order and each video's frames in the order they were extracted. */
  lemma FreshRunMerges(d: Disk, videos: seq<string>, extractor: string -> seq<File>)
    requires forall i | 0 <= i < |videos| :: GoodOutput(extractor(videos[i]))
    requires forall i, j | 0 <= i < j < |videos| :: ExtractNumber(videos[i]) < ExtractNumber(videos[j])
    requires forall i | 0 <= i < |videos| :: !d.Exists(JobStem(ExtractNumber(videos[i])))
    requires d.PdfEntries() == {} && !d.Exists(MergedName)
    ensures var run := RunJobs(d, videos, ProcessVideoJob(extractor)).0;
      forall listing | Enumerates(listing, run.PdfEntries()) ::
        MergeEffect(run, listing)
          == (run.(files := run.files[MergedName := Document(Flatten(FramesOf(videos, extractor)))]), Returned(()))
  {
    var keys := Keys(videos);
    NoJobPdfs(d, keys);
    FreshJobs(d, videos, keys, extractor);
    var run := RunJobs(d, videos, ProcessVideoJob(extractor)).0;
    forall listing | Enumerates(listing, run.PdfEntries())
      ensures MergeEffect(run, listing)
           == (run.(files := run.files[MergedName := Document(Flatten(FramesOf(videos, extractor)))]), Returned(()))
    {
      MergeOfJobPdfs(d, run, keys, FramesOf(videos, extractor), listing);
    }
  }
}
