/** The script run against an output folder that changes in place: each function of
    the script as a method of `OutputDir`, proved to have the effect the `Stages`,
    `Merge` and `Jobs` modules give it. */
module Pipeline {
  import opened Naming
  import opened Sorting
  import opened Disk
  import opened Stages
  import opened Merge
  import opened Catalog
  import opened Jobs

  /** `glob` over a folder whose matching entries are `matches`: each of them once, in
      an order the operating system chooses. */
  method Glob(matches: set<string>) returns (listing: seq<string>)
    ensures Enumerates(listing, matches)
  {
    listing := [];
    var rest := matches;
    while rest != {}
      invariant rest <= matches
      invariant Enumerates(listing, matches - rest)
      decreases |rest|
    {
      var n :| n in rest;
      EnumeratesAppend(listing, matches - rest, n);
      assert (matches - rest) + {n} == matches - (rest - {n});
      listing := listing + [n];
      rest := rest - {n};
    }
  }

  /** `any(folder.glob("frame_*.jpg"))`: stops at the first frame file it meets. */
  method AnyFrameFile(f: Folder) returns (found: bool)
    ensures found == HasFrames(f)
  {
    var rest := f.Keys;
    found := false;
    while rest != {} && !found
      invariant rest <= f.Keys
      invariant found ==> HasFrames(f)
      invariant !found ==> forall n | n in f.Keys - rest :: !IsFrameFile(n)
      decreases |rest|
    {
      var n :| n in rest;
      found := IsFrameFile(n);
      rest := rest - {n};
    }
  }

  /** Writing frame `i + 1` extends the frames written before it. */
  lemma FrameFilesSnoc(out: seq<File>, i: nat)
    requires i < |out|
    ensures FrameFiles(out[..i + 1]) == FrameFiles(out[..i])[FrameName(i + 1) := out[i]]
  {
    assert out[..i + 1][..i] == out[..i];
  }

  lemma UnionUpdate(a: Folder, b: Folder, n: string, x: File)
    ensures (a + b)[n := x] == a + b[n := x]
  {
  }

  lemma RunJobsSnoc(d: Disk, videos: seq<string>, i: nat, job: (Disk, string) -> (Disk, bool))
    requires i < |videos|
    ensures var before := RunJobs(d, videos[..i], job);
      var after := job(before.0, videos[i]);
      RunJobs(d, videos[..i + 1], job) == (after.0, before.1 + [after.1])
  {
    assert videos[..i + 1][..i] == videos[..i];
  }

  /** The extractor writing its output `out` into a folder holding `before`:
      `frame_0001.jpg`, `frame_0002.jpg`, ... one file per output frame. */
  method WriteFrames(before: Folder, out: seq<File>) returns (after: Folder)
    ensures after == before + FrameFiles(out)
  {
    after := before;
    assert out[..0] == [] && before + map[] == before;
    var i := 0;
    while i < |out|
      invariant 0 <= i <= |out|
      invariant after == before + FrameFiles(out[..i])
    {
      FrameFilesSnoc(out, i);
      UnionUpdate(before, FrameFiles(out[..i]), FrameName(i + 1), out[i]);
      after := after[FrameName(i + 1) := out[i]];
      i := i + 1;
    }
    assert out[..i] == out;
  }

  /** `[Image.open(p) for p in images]` and `.convert("RGB")`: the pages of the listed
      images in order, or the exception the first undecodable one raises. */
  method ReadPictures(f: Folder, images: seq<string>) returns (o: Outcome<seq<Page>>)
    ensures o == if AllPictures(f, images) then Returned(PagesOf(f, images)) else Raised
  {
    var pages: seq<Page> := [];
    var i := 0;
    while i < |images|
      invariant 0 <= i <= |images|
      invariant AllPictures(f, images[..i])
      invariant pages == PagesOf(f, images[..i])
    {
      assert images[..i + 1][..i] == images[..i];
      if !(images[i] in f && f[images[i]].Picture?) {
        return Raised;
      }
      pages := pages + [f[images[i]].page];
      i := i + 1;
    }
    assert images[..i] == images;
    return Returned(pages);
  }

  /** The merge loop's `PdfReader(pdf)` and `writer.append(reader)` over the ordered PDFs:
      their pages one document after another, or the exception the first unreadable one
      raises. */
  method ReadDocuments(files: map<string, File>, order: seq<string>) returns (o: Outcome<seq<Page>>)
    ensures o == if AllDocuments(files, order) then Returned(Concat(files, order)) else Raised
  {
    var pages: seq<Page> := [];
    var i := 0;
    while i < |order|
      invariant 0 <= i <= |order|
      invariant AllDocuments(files, order[..i])
      invariant pages == Concat(files, order[..i])
    {
      assert order[..i + 1][..i] == order[..i];
      if !(order[i] in files && files[order[i]].Document?) {
        return Raised;
      }
      pages := pages + files[order[i]].pages;
      i := i + 1;
    }
    assert order[..i] == order;
    return Returned(pages);
  }

  /** The output folder `pdf/`: its plain files and its frame folders. */
  class OutputDir {
    var files: map<string, File>
    var folders: map<string, Folder>

    /** The folder's current content, as a value. */
    function Snapshot(): Disk
      reads this
    {
      Disk(files, folders)
    }

    /** `OUTPUT_DIR.mkdir(exist_ok=True)` over a folder that already holds `d`. */
    constructor (d: Disk)
      ensures Snapshot() == d
    {
      files := d.files;
      folders := d.folders;
    }

    /** `extract_frames(video, pdf/<stem>)`, the extractor writing `out`. */
    method ExtractFrames(stem: string, out: seq<File>) returns (o: Outcome<bool>)
      modifies this
      ensures (Snapshot(), o) == ExtractFramesEffect(old(Snapshot()), stem, out)
      ensures old(Snapshot()).Valid() ==> Snapshot().Valid()
    {
      if Snapshot().Valid() {
        ExtractFramesKeepsValid(Snapshot(), stem, out);
      }
      if stem in files {
        // `mkdir(parents=True, exist_ok=True)` raises on an existing plain file
        return Raised;
      }
      // `mkdir` leaves an existing folder as it is
      var folder := Snapshot().FolderAt(stem);
      var found := AnyFrameFile(folder);
      var after := folder;
      if !found {
        after := WriteFrames(folder, out);
      }
      folders := folders[stem := after];
      return Returned(true);
    }

    /** `images_to_pdf(pdf/<folder>, pdf/<pdf>)`. */
    method ImagesToPdf(folder: string, pdf: string) returns (o: Outcome<bool>)
      modifies this
      ensures (Snapshot(), o) == ImagesToPdfEffect(old(Snapshot()), folder, pdf)
      ensures old(Snapshot()).Valid() ==> Snapshot().Valid()
    {
      if Snapshot().Valid() {
        ImagesToPdfKeepsValid(Snapshot(), folder, pdf);
      }
      if pdf in files || pdf in folders {
        return Returned(true);
      }
      var f := if folder in folders then folders[folder] else map[];
      var found := Glob(JpgNames(f));
      var images := SortBy(found, StrLess);
      SortListing(found, JpgNames(f));
      if images == [] {
        return Returned(false);
      }
      // every image is opened before the document is saved
      var pages := ReadPictures(f, images);
      if pages == Raised {
        return Raised;
      }
      files := files[pdf := Document(pages.value)];
      return Returned(true);
    }

    /** `delete_frames(pdf/<name>)`. */
    method DeleteFrames(name: string)
      modifies this
      ensures Snapshot() == DeleteFramesEffect(old(Snapshot()), name)
      ensures old(Snapshot()).Valid() ==> Snapshot().Valid()
    {
      if Snapshot().Valid() {
        DeleteFramesKeepsValid(Snapshot(), name);
      }
      if name !in folders {
        // nothing to unlink, and the failing `rmdir` is swallowed
        return;
      }
      var orig := folders[name];
      var jpgs := Glob(JpgNames(orig));
      ghost var removed: set<string> := {};
      assert orig - removed == orig;
      var i := 0;
      while i < |jpgs|
        invariant 0 <= i <= |jpgs|
        invariant files == old(files)
        invariant forall n :: n in removed <==> n in jpgs[..i]
        invariant folders == old(folders)[name := orig - removed]
      {
        assert (orig - removed) - {jpgs[i]} == orig - (removed + {jpgs[i]});
        folders := folders[name := folders[name] - {jpgs[i]}];
        removed := removed + {jpgs[i]};
        assert jpgs[..i + 1] == jpgs[..i] + [jpgs[i]];
        i := i + 1;
      }
      assert jpgs[..i] == jpgs;
      EnumeratesMembers(jpgs, JpgNames(orig));
      assert removed == JpgNames(orig);
      // `rmdir` succeeds only on an empty folder
      if folders[name] == map[] {
        folders := folders - {name};
      }
    }

    /** `process_video(video)`, the extractor writing `out`. */
    method ProcessVideo(video: string, out: seq<File>) returns (ok: bool)
      modifies this
      ensures (Snapshot(), ok) == ProcessVideoEffect(old(Snapshot()), video, out)
      ensures old(Snapshot()).Valid() ==> Snapshot().Valid()
    {
      var number := ZFill(Str(ExtractNumber(video)), StemWidth);
      var stem, pdf := number, number + ".pdf";
      var extracted := ExtractFrames(stem, out);
      if extracted == Raised {
        return false;
      }
      var assembled := ImagesToPdf(stem, pdf);
      if assembled == Raised {
        return false;
      }
      DeleteFrames(stem);
      return true;
    }

    /** `merge_all_pdfs()`; `listing` is the order the glob `*.pdf` yielded. */
    method MergeAllPdfs() returns (o: Outcome<()>, listing: seq<string>)
      modifies this
      ensures !old(Snapshot()).Exists(MergedName) ==> Enumerates(listing, old(Snapshot()).PdfEntries())
      ensures (Snapshot(), o) == MergeEffect(old(Snapshot()), listing)
      ensures old(Snapshot()).Valid() ==> Snapshot().Valid()
    {
      listing := [];
      if MergedName in files || MergedName in folders {
        return Returned(()), listing;
      }
      listing := Glob(Snapshot().PdfEntries());
      if Snapshot().Valid() {
        MergeKeepsValid(Snapshot(), listing);
      }
      var order := MergeOrder(listing);
      var pages := ReadDocuments(files, order);
      if pages == Raised {
        return Raised, listing;
      }
      files := files[MergedName := Document(pages.value)];
      return Returned(()), listing;
    }

    /** `ex.map(process_video, videos)`, the jobs run one after another in list order. */
    method ProcessAll(videos: seq<string>, extractor: string -> seq<File>) returns (results: seq<bool>)
      modifies this
      ensures (Snapshot(), results) == RunJobs(old(Snapshot()), videos, ProcessVideoJob(extractor))
      ensures old(Snapshot()).Valid() ==> Snapshot().Valid()
    {
      ghost var job := ProcessVideoJob(extractor);
      ghost var d := Snapshot();
      results := [];
      var i := 0;
      while i < |videos|
        invariant 0 <= i <= |videos|
        invariant (Snapshot(), results) == RunJobs(d, videos[..i], job)
        invariant d.Valid() ==> Snapshot().Valid()
      {
        ghost var before := Snapshot();
        var ok := ProcessVideo(videos[i], extractor(videos[i]));
        assert job(before, videos[i]) == (Snapshot(), ok);
        RunJobsSnoc(d, videos, i, job);
        results := results + [ok];
        i := i + 1;
      }
      assert videos[..i] == videos;
    }

    /** `main()` once its environment checks pass, over a video folder whose entries
        are `videoDir`: discover the videos, run one job per video (one after another;
        the extractor writes `extractor(v)` for video `v`), then merge, unless no video
        was found. */
    method RunScript(videoDir: set<string>, extractor: string -> seq<File>)
      returns (videos: seq<string>, results: seq<bool>, merged: Outcome<()>, listing: seq<string>)
      modifies this
      ensures Enumerates(videos, set n | n in videoDir && IsVideo(n))
      ensures forall i, j | 0 <= i < j < |videos| :: ExtractNumber(videos[i]) <= ExtractNumber(videos[j])
      ensures videos == [] ==> Snapshot() == old(Snapshot()) && results == []
      ensures videos != [] ==>
        var run := RunJobs(old(Snapshot()), videos, ProcessVideoJob(extractor));
        && results == run.1
        && (!run.0.Exists(MergedName) ==> Enumerates(listing, run.0.PdfEntries()))
        && (Snapshot(), merged) == MergeEffect(run.0, listing)
      ensures old(Snapshot()).Valid() ==> Snapshot().Valid()
    {
      var mp4s := Glob(Matching(videoDir, ".mp4"));
      var webms := Glob(Matching(videoDir, ".webm"));
      var mkvs := Glob(Matching(videoDir, ".mkv"));
      videos := Discover(mp4s, webms, mkvs);
      DiscoverFindsEveryVideo(videoDir, mp4s, webms, mkvs);
      results, merged, listing := [], Returned(()), [];
      if videos == [] {
        // "No videos found": `main` returns before the merge
        return;
      }
      results := ProcessAll(videos, extractor);
      merged, listing := MergeAllPdfs();
    }
  }
}
