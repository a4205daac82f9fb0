/** The effect on the output folder of each stage of the script: `extract_frames`,
    `images_to_pdf`, `delete_frames`, `process_video` and `merge_all_pdfs`, as
    functions from the folder before to the folder after and the call's outcome. */
module Stages {
  import opened Naming
  import opened Sorting
  import opened Disk

  // ---------------------------------------------------------------------------
  // extract_frames

  /** `extract_frames(video, pdf/<stem>)`, the extractor writing `out`. Making the
      folder raises when a plain file has its name; existing frames skip the
      extractor; the extractor's success is never looked at. */
  ghost function ExtractFramesEffect(d: Disk, stem: string, out: seq<File>): (Disk, Outcome<bool>)
  {
    if stem in d.files then (d, Raised)
    else
      var folder := d.FolderAt(stem);
      var after := if HasFrames(folder) then folder else folder + FrameFiles(out);
      (d.(folders := d.folders[stem := after]), Returned(true))
  }

  /** `extract_frames` never returns False, makes the job folder, and adds to it at most
      the extractor's frames; nothing else changes. */
  lemma ExtractFramesResult(d: Disk, stem: string, out: seq<File>)
    ensures var (d', o) := ExtractFramesEffect(d, stem, out);
      && o != Returned(false)
      && (o == Raised <==> stem in d.files)
      && d'.files == d.files
      && (o.Returned? ==> stem in d'.folders && d'.folders - {stem} == d.folders - {stem})
      && (o.Returned? && HasFrames(d.FolderAt(stem)) ==> d' == d)
      && (o.Returned? && !HasFrames(d.FolderAt(stem)) ==> d'.folders[stem] == d.FolderAt(stem) + FrameFiles(out))
  {
    if stem !in d.files {
      var folder := d.FolderAt(stem);
      var after := if HasFrames(folder) then folder else folder + FrameFiles(out);
      var folders' := d.folders[stem := after];
      assert folders' - {stem} == d.folders - {stem};
      if HasFrames(folder) {
        assert stem in d.folders;
        assert folders' == d.folders;
      }
    }
  }

  /** Once the extractor has written a frame, or frames were already there, calling
      `extract_frames` again changes nothing: the extractor is not run again. */
  lemma ExtractFramesSkipsOnRerun(d: Disk, stem: string, out: seq<File>, again: seq<File>)
    requires stem !in d.files
    requires out != [] || HasFrames(d.FolderAt(stem))
    ensures var d' := ExtractFramesEffect(d, stem, out).0;
      ExtractFramesEffect(d', stem, again) == (d', Returned(true))
  {
    var d' := ExtractFramesEffect(d, stem, out).0;
    if !HasFrames(d.FolderAt(stem)) {
      FrameNameShape(1);
      assert FrameName(1) in FrameFiles(out);
      assert FrameName(1) in d'.FolderAt(stem);
    }
    assert HasFrames(d'.FolderAt(stem));
    assert d'.folders[stem := d'.FolderAt(stem)] == d'.folders;
  }

  // ---------------------------------------------------------------------------
  // images_to_pdf

  /** `images_to_pdf(pdf/<folder>, pdf/<pdf>)`: skip when the PDF exists, return False
      when the folder has no `.jpg`, raise when one of them is not a decodable image,
      and otherwise write one page per `.jpg`, in ascending name order. */
  ghost function ImagesToPdfEffect(d: Disk, folder: string, pdf: string): (Disk, Outcome<bool>)
  {
    if d.Exists(pdf) then (d, Returned(true))
    else
      var f := d.FolderAt(folder);
      var images := SortedNames(JpgNames(f));
      if images == [] then (d, Returned(false))
      else if !AllPictures(f, images) then (d, Raised)
      else (d.(files := d.files[pdf := Document(PagesOf(f, images))]), Returned(true))
  }

  /** The three ways `images_to_pdf` ends, and what it writes: nothing, except on a
      successful assembly, where it writes exactly the PDF, one page per `.jpg` of the
      folder with names in ascending order. */
  lemma ImagesToPdfResult(d: Disk, folder: string, pdf: string)
    ensures var (d', o) := ImagesToPdfEffect(d, folder, pdf);
      var f := d.FolderAt(folder);
      && d'.folders == d.folders
      && (d.Exists(pdf) ==> d' == d && o == Returned(true))
      && (!d.Exists(pdf) && JpgNames(f) == {} ==> d' == d && o == Returned(false))
      && (o == Raised ==> d' == d)
      && (!d.Exists(pdf) && o == Returned(true) ==>
            exists names ::
              && Enumerates(names, JpgNames(f))
              && (forall i, j | 0 <= i < j < |names| :: StrLess(names[i], names[j]))
              && AllPictures(f, names)
              && d'.files == d.files[pdf := Document(PagesOf(f, names))])
  {
    var f := d.FolderAt(folder);
    var names := SortedNames(JpgNames(f));
    if JpgNames(f) == {} {
      assert |multiset(names)| == 0;
    }
  }

  /** When `images_to_pdf` returns False and when it raises: False exactly when there
      is no PDF yet and no `.jpg` to assemble, a raise exactly when there is no PDF
      yet and one of the `.jpg` files is not a decodable image. In every other case
      it returns True. */
  lemma ImagesToPdfOutcomes(d: Disk, folder: string, pdf: string)
    ensures ImagesToPdfEffect(d, folder, pdf).1 == Returned(false)
        <==> !d.Exists(pdf) && JpgNames(d.FolderAt(folder)) == {}
    ensures ImagesToPdfEffect(d, folder, pdf).1 == Raised
        <==> !d.Exists(pdf) && exists n | n in JpgNames(d.FolderAt(folder)) :: !d.FolderAt(folder)[n].Picture?
  {
    SortedNamesEmpty(JpgNames(d.FolderAt(folder)));
    JpgsArePictures(d.FolderAt(folder));
  }

  /** The sorted listing of a set is empty exactly when the set is. */
  lemma SortedNamesEmpty(s: set<string>)
    ensures SortedNames(s) == [] <==> s == {}
  {
    EnumeratesMembers(SortedNames(s), s);
    if s != {} {
      var n :| n in s;
      assert n in SortedNames(s);
    }
  }

  /** Opening the sorted `.jpg` files succeeds exactly when each of them decodes. */
  lemma JpgsArePictures(f: Folder)
    ensures AllPictures(f, SortedNames(JpgNames(f))) <==> forall n | n in JpgNames(f) :: f[n].Picture?
  {
    var names := SortedNames(JpgNames(f));
    EnumeratesMembers(names, JpgNames(f));
    if exists n | n in JpgNames(f) :: !f[n].Picture? {
      var n :| n in JpgNames(f) && !f[n].Picture?;
      var i :| 0 <= i < |names| && names[i] == n;
      assert !(names[i] in f && f[names[i]].Picture?);
    } else {
      forall i | 0 <= i < |names| ensures names[i] in f && f[names[i]].Picture? {
        assert names[i] in JpgNames(f);
      }
    }
  }

  /** Running `images_to_pdf` a second time changes nothing and ends the same way. */
  lemma ImagesToPdfIdempotent(d: Disk, folder: string, pdf: string)
    ensures var (d', o) := ImagesToPdfEffect(d, folder, pdf);
      ImagesToPdfEffect(d', folder, pdf) == (d', o)
  {
    var (d', o) := ImagesToPdfEffect(d, folder, pdf);
    if !d.Exists(pdf) && o == Returned(true) {
      assert d'.Exists(pdf);
    }
  }

  // ---------------------------------------------------------------------------
  // delete_frames

  /** `delete_frames(pdf/<name>)`: unlink every `.jpg`, then remove the folder if that
      left it empty (a failing `rmdir` is swallowed). */
  ghost function DeleteFramesEffect(d: Disk, name: string): Disk
  {
    if name !in d.folders then d
    else
      var rest := d.folders[name] - JpgNames(d.folders[name]);
      if rest == map[] then d.(folders := d.folders - {name})
      else d.(folders := d.folders[name := rest])
  }

  /** After `delete_frames` no `.jpg` is left in the folder, its other files stay, it
      is gone exactly when it held nothing else, and nothing else changes. */
  lemma DeleteFramesResult(d: Disk, name: string)
    ensures var d' := DeleteFramesEffect(d, name);
      && d'.files == d.files
      && d'.folders - {name} == d.folders - {name}
      && JpgNames(d'.FolderAt(name)) == {}
      && (forall n | n in d.FolderAt(name) && !IsJpg(n) :: n in d'.FolderAt(name) && d'.FolderAt(name)[n] == d.FolderAt(name)[n])
      && (name in d.folders ==> (name in d'.folders <==> exists n | n in d.folders[name] :: !IsJpg(n)))
  {
    var d' := DeleteFramesEffect(d, name);
    if name in d.folders {
      var f := d.folders[name];
      var rest := f - JpgNames(f);
      if exists n | n in f :: !IsJpg(n) {
        var n :| n in f && !IsJpg(n);
        assert n in rest;
      } else {
        assert rest.Keys == {};
      }
    }
  }

  /** A second `delete_frames` changes nothing. */
  lemma DeleteFramesIdempotent(d: Disk, name: string)
    ensures DeleteFramesEffect(DeleteFramesEffect(d, name), name) == DeleteFramesEffect(d, name)
  {
    var d' := DeleteFramesEffect(d, name);
    if name in d'.folders {
      var f := d'.folders[name];
      assert JpgNames(f) == {};
      assert f - {} == f;
    }
  }

  // ---------------------------------------------------------------------------
  // process_video

  /** One job on its frame folder `stem` and its PDF `pdf`: extract, assemble whatever
      the extraction did, and delete the frames whatever the assembly returned; an
      exception from any step ends the job with False. */
  ghost function JobEffect(d: Disk, stem: string, pdf: string, out: seq<File>): (Disk, bool)
  {
    var (d1, extracted) := ExtractFramesEffect(d, stem, out);
    if extracted == Raised then (d1, false)
    else
      var (d2, assembled) := ImagesToPdfEffect(d1, stem, pdf);
      if assembled == Raised then (d2, false)
      else (DeleteFramesEffect(d2, stem), true)
  }

  /** `process_video(video)`: the job on `pdf/<stem>` and `pdf/<stem>.pdf`, where
      `<stem>` is the video's number padded to three digits. */
  ghost function ProcessVideoEffect(d: Disk, video: string, out: seq<File>): (Disk, bool)
  {
    var key := ExtractNumber(video);
    JobEffect(d, JobStem(key), PdfName(key), out)
  }

  /** No stage leaves a plain file and a folder with the same name. */
  lemma ExtractFramesKeepsValid(d: Disk, stem: string, out: seq<File>)
    requires d.Valid()
    ensures ExtractFramesEffect(d, stem, out).0.Valid()
  {
    if stem !in d.files {
      var d' := ExtractFramesEffect(d, stem, out).0;
      assert d'.folders.Keys == d.folders.Keys + {stem};
    }
  }

  lemma ImagesToPdfKeepsValid(d: Disk, folder: string, pdf: string)
    requires d.Valid()
    ensures ImagesToPdfEffect(d, folder, pdf).0.Valid()
  {
    var d' := ImagesToPdfEffect(d, folder, pdf).0;
    if d' != d {
      assert !d.Exists(pdf);
      assert d'.files.Keys == d.files.Keys + {pdf} && d'.folders == d.folders;
    }
  }

  lemma DeleteFramesKeepsValid(d: Disk, name: string)
    requires d.Valid()
    ensures DeleteFramesEffect(d, name).Valid()
  {
    var d' := DeleteFramesEffect(d, name);
    assert d'.files == d.files && d'.folders.Keys <= d.folders.Keys;
  }

  /** A job never leaves a plain file and a folder with the same name. */
  lemma ProcessVideoKeepsValid(d: Disk, video: string, out: seq<File>)
    requires d.Valid()
    ensures ProcessVideoEffect(d, video, out).0.Valid()
  {
    var key := ExtractNumber(video);
    var stem, pdf := JobStem(key), PdfName(key);
    var (d1, x1) := ExtractFramesEffect(d, stem, out);
    ExtractFramesKeepsValid(d, stem, out);
    if x1 != Raised {
      var (d2, x2) := ImagesToPdfEffect(d1, stem, pdf);
      ImagesToPdfKeepsValid(d1, stem, pdf);
      if x2 != Raised {
        DeleteFramesKeepsValid(d2, stem);
      }
    }
  }

  // ---------------------------------------------------------------------------
  // Which names each stage reads and writes

  /** The entry `n` of the output folder is the same on both disks. */
  ghost predicate SameAt(d: Disk, e: Disk, n: string)
  {
    && (n in d.files <==> n in e.files)
    && (n in d.files ==> d.files[n] == e.files[n])
    && (n in d.folders <==> n in e.folders)
    && (n in d.folders ==> d.folders[n] == e.folders[n])
  }

  ghost predicate AgreeOn(d: Disk, e: Disk, names: set<string>)
  {
    forall n | n in names :: SameAt(d, e, n)
  }

  ghost predicate SameOutside(d: Disk, e: Disk, names: set<string>)
  {
    forall n | n !in names :: SameAt(d, e, n)
  }

  lemma ExtractFramesFrame(d: Disk, stem: string, out: seq<File>)
    ensures SameOutside(d, ExtractFramesEffect(d, stem, out).0, {stem})
  {
  }

  lemma ExtractFramesLocal(d: Disk, e: Disk, stem: string, out: seq<File>)
    requires AgreeOn(d, e, {stem})
    ensures ExtractFramesEffect(d, stem, out).1 == ExtractFramesEffect(e, stem, out).1
    ensures AgreeOn(ExtractFramesEffect(d, stem, out).0, ExtractFramesEffect(e, stem, out).0, {stem})
  {
    assert SameAt(d, e, stem);
    assert d.FolderAt(stem) == e.FolderAt(stem);
  }

  lemma ImagesToPdfFrame(d: Disk, folder: string, pdf: string)
    ensures SameOutside(d, ImagesToPdfEffect(d, folder, pdf).0, {pdf})
  {
  }

  lemma ImagesToPdfLocal(d: Disk, e: Disk, folder: string, pdf: string)
    requires AgreeOn(d, e, {folder, pdf})
    ensures ImagesToPdfEffect(d, folder, pdf).1 == ImagesToPdfEffect(e, folder, pdf).1
    ensures AgreeOn(ImagesToPdfEffect(d, folder, pdf).0, ImagesToPdfEffect(e, folder, pdf).0, {folder, pdf})
  {
    assert SameAt(d, e, folder) && SameAt(d, e, pdf);
    assert d.FolderAt(folder) == e.FolderAt(folder);
    assert d.Exists(pdf) == e.Exists(pdf);
  }

  lemma DeleteFramesFrame(d: Disk, name: string)
    ensures SameOutside(d, DeleteFramesEffect(d, name), {name})
  {
  }

  /** `delete_frames` leaves the plain files alone, whatever they are. */
  lemma DeleteKeepsFiles(d: Disk, name: string, files: map<string, File>)
    ensures DeleteFramesEffect(d.(files := files), name) == DeleteFramesEffect(d, name).(files := files)
  {
  }

  lemma DeleteFramesLocal(d: Disk, e: Disk, name: string)
    requires AgreeOn(d, e, {name})
    ensures AgreeOn(DeleteFramesEffect(d, name), DeleteFramesEffect(e, name), {name})
  {
    assert SameAt(d, e, name);
  }

  /** The names a job touches: its frame folder and its PDF. */
  function JobNames(video: string): set<string>
  {
    var key := ExtractNumber(video);
    {JobStem(key), PdfName(key)}
  }

  /** A job only touches its own folder and PDF. */
  lemma JobFrame(d: Disk, stem: string, pdf: string, out: seq<File>)
    ensures SameOutside(d, JobEffect(d, stem, pdf, out).0, {stem, pdf})
  {
    var (d1, extracted) := ExtractFramesEffect(d, stem, out);
    ExtractFramesFrame(d, stem, out);
    if extracted != Raised {
      var (d2, assembled) := ImagesToPdfEffect(d1, stem, pdf);
      ImagesToPdfFrame(d1, stem, pdf);
      if assembled != Raised {
        DeleteFramesFrame(d2, stem);
      }
    }
  }

  /** A video's job only touches its own folder and PDF. */
  lemma ProcessVideoFrame(d: Disk, video: string, out: seq<File>)
    ensures SameOutside(d, ProcessVideoEffect(d, video, out).0, JobNames(video))
  {
    var key := ExtractNumber(video);
    JobFrame(d, JobStem(key), PdfName(key), out);
  }

  /** What a job does depends only on its own folder and PDF. */
  lemma JobLocal(d: Disk, e: Disk, stem: string, pdf: string, out: seq<File>)
    requires stem != pdf && AgreeOn(d, e, {stem, pdf})
    ensures JobEffect(d, stem, pdf, out).1 == JobEffect(e, stem, pdf, out).1
    ensures AgreeOn(JobEffect(d, stem, pdf, out).0, JobEffect(e, stem, pdf, out).0, {stem, pdf})
  {
    var (d1, x1) := ExtractFramesEffect(d, stem, out);
    var (e1, y1) := ExtractFramesEffect(e, stem, out);
    ExtractFramesLocal(d, e, stem, out);
    ExtractFramesFrame(d, stem, out);
    ExtractFramesFrame(e, stem, out);
    assert SameAt(d1, e1, pdf) by {
      assert SameAt(d, d1, pdf) && SameAt(e, e1, pdf) && SameAt(d, e, pdf);
    }
    if x1 != Raised {
      var (d2, x2) := ImagesToPdfEffect(d1, stem, pdf);
      var (e2, y2) := ImagesToPdfEffect(e1, stem, pdf);
      ImagesToPdfLocal(d1, e1, stem, pdf);
      if x2 != Raised {
        DeleteFramesLocal(d2, e2, stem);
        DeleteFramesFrame(d2, stem);
        DeleteFramesFrame(e2, stem);
        assert SameAt(d2, e2, pdf);
      }
    }
  }

  /** What a video's job does depends only on its own folder and PDF. */
  lemma ProcessVideoLocal(d: Disk, e: Disk, video: string, out: seq<File>)
    requires AgreeOn(d, e, JobNames(video))
    ensures ProcessVideoEffect(d, video, out).1 == ProcessVideoEffect(e, video, out).1
    ensures AgreeOn(ProcessVideoEffect(d, video, out).0, ProcessVideoEffect(e, video, out).0, JobNames(video))
  {
    var key := ExtractNumber(video);
    JobNamesDisjoint(key, key);
    JobLocal(d, e, JobStem(key), PdfName(key), out);
  }

  /** Two disks that agree on every name are the same disk. */
  lemma SameEverywhere(d: Disk, e: Disk)
    requires forall n :: SameAt(d, e, n)
    ensures d == e
  {
    forall n ensures (n in d.files <==> n in e.files) && (n in d.folders <==> n in e.folders) {
      assert SameAt(d, e, n);
    }
    forall n | n in d.files ensures d.files[n] == e.files[n] {
      assert SameAt(d, e, n);
    }
    forall n | n in d.folders ensures d.folders[n] == e.folders[n] {
      assert SameAt(d, e, n);
    }
    assert d.files == e.files;
    assert d.folders == e.folders;
  }

  /** Jobs on disjoint names, run in either order, leave the same output folder and
      each returns the same. */
  lemma DisjointJobsCommute(d: Disk, sa: string, pa: string, outA: seq<File>, sb: string, pb: string, outB: seq<File>)
    requires sa != pa && sb != pb
    requires sa != sb && sa != pb && pa != sb && pa != pb
    ensures JobEffect(JobEffect(d, sa, pa, outA).0, sb, pb, outB).0 == JobEffect(JobEffect(d, sb, pb, outB).0, sa, pa, outA).0
    ensures JobEffect(d, sa, pa, outA).1 == JobEffect(JobEffect(d, sb, pb, outB).0, sa, pa, outA).1
    ensures JobEffect(d, sb, pb, outB).1 == JobEffect(JobEffect(d, sa, pa, outA).0, sb, pb, outB).1
  {
    var na, nb := {sa, pa}, {sb, pb};
    assert na !! nb;
    var (d1, ra) := JobEffect(d, sa, pa, outA);
    var (d2, rb) := JobEffect(d1, sb, pb, outB);
    var (e1, sb') := JobEffect(d, sb, pb, outB);
    var (e2, sa') := JobEffect(e1, sa, pa, outA);
    JobFrame(d, sa, pa, outA);
    JobFrame(d1, sb, pb, outB);
    JobFrame(d, sb, pb, outB);
    JobFrame(e1, sa, pa, outA);
    assert AgreeOn(d, e1, na) by {
      forall n | n in na ensures SameAt(d, e1, n) {
        assert n !in nb;
      }
    }
    JobLocal(d, e1, sa, pa, outA);
    assert AgreeOn(d1, d, nb) by {
      forall n | n in nb ensures SameAt(d1, d, n) {
        assert n !in na && SameAt(d, d1, n);
      }
    }
    JobLocal(d1, d, sb, pb, outB);
    forall n ensures SameAt(d2, e2, n) {
      if n in na {
        assert n !in nb;
        assert SameAt(d1, d2, n) && SameAt(d1, e2, n);
      } else if n in nb {
        assert SameAt(d2, e1, n) && SameAt(e1, e2, n);
      } else {
        assert SameAt(d, d1, n) && SameAt(d1, d2, n) && SameAt(d, e1, n) && SameAt(e1, e2, n);
      }
    }
    SameEverywhere(d2, e2);
  }

  /** Jobs for videos with different keys touch disjoint names, so running them in
      either order leaves the same output folder and each job returns the same. */
  lemma ProcessVideoCommute(d: Disk, a: string, outA: seq<File>, b: string, outB: seq<File>)
    requires ExtractNumber(a) != ExtractNumber(b)
    ensures ProcessVideoEffect(ProcessVideoEffect(d, a, outA).0, b, outB).0
         == ProcessVideoEffect(ProcessVideoEffect(d, b, outB).0, a, outA).0
    ensures ProcessVideoEffect(d, a, outA).1 == ProcessVideoEffect(ProcessVideoEffect(d, b, outB).0, a, outA).1
    ensures ProcessVideoEffect(d, b, outB).1 == ProcessVideoEffect(ProcessVideoEffect(d, a, outA).0, b, outB).1
  {
    var ka, kb := ExtractNumber(a), ExtractNumber(b);
    JobNamesDisjoint(ka, kb);
    JobNamesDisjoint(kb, ka);
    JobNamesDisjoint(ka, ka);
    JobNamesDisjoint(kb, kb);
    DisjointJobsCommute(d, JobStem(ka), PdfName(ka), outA, JobStem(kb), PdfName(kb), outB);
  }

  /** What a job leaves of a folder it had to create, when no frame survives it. */
  lemma FreshFolderRemoved(d: Disk, stem: string, out: seq<File>)
    requires !d.Exists(stem)
    ensures ExtractFramesEffect(d, stem, out) == (d.(folders := d.folders[stem := FrameFiles(out)]), Returned(true))
    ensures DeleteFramesEffect(d.(folders := d.folders[stem := FrameFiles(out)]), stem) == d
  {
    FreshFolderExtracted(d, stem, out);
    FreshFolderDeleted(d, stem, out, d.(folders := d.folders[stem := FrameFiles(out)]));
  }

  /** Extraction into a folder that is not there makes it and writes every frame. */
  lemma FreshFolderExtracted(d: Disk, stem: string, out: seq<File>)
    requires !d.Exists(stem)
    ensures ExtractFramesEffect(d, stem, out) == (d.(folders := d.folders[stem := FrameFiles(out)]), Returned(true))
  {
    assert !HasFrames(map[]);
    assert map[] + FrameFiles(out) == FrameFiles(out);
  }

  /** Deleting the frames of a folder holding only frames removes the folder. */
  lemma FreshFolderDeleted(d: Disk, stem: string, out: seq<File>, d1: Disk)
    requires !d.Exists(stem)
    requires d1 == d.(folders := d.folders[stem := FrameFiles(out)])
    ensures DeleteFramesEffect(d1, stem) == d
  {
    FrameFilesAllJpg(out);
    assert d1.folders - {stem} == d.folders;
  }

  /** The extractor writes only `.jpg` files. */
  lemma FrameFilesAllJpg(out: seq<File>)
    ensures FrameFiles(out) - JpgNames(FrameFiles(out)) == map[]
  {
    var m := FrameFiles(out);
    forall i | 1 <= i <= |out| ensures IsJpg(FrameName(i)) {
      FrameNameShape(i);
    }
    assert (m - JpgNames(m)).Keys == {};
  }

  /** Resuming a finished job: when the video's PDF is there and its frame folder is
      gone, the job changes nothing in the end and returns True. The extractor still
      runs again, because its frames were deleted. */
  lemma ProcessVideoResumes(d: Disk, video: string, out: seq<File>)
    requires var key := ExtractNumber(video);
      !d.Exists(JobStem(key)) && d.Exists(PdfName(key))
    ensures ProcessVideoEffect(d, video, out) == (d, true)
  {
    var key := ExtractNumber(video);
    JobResumes(d, JobStem(key), PdfName(key), out);
  }

  lemma JobResumes(d: Disk, stem: string, pdf: string, out: seq<File>)
    requires !d.Exists(stem) && d.Exists(pdf)
    ensures JobEffect(d, stem, pdf, out) == (d, true)
  {
    FreshFolderRemoved(d, stem, out);
  }

  /** The three stages on a fresh folder when the extractor writes nothing. */
  lemma EmptyJobStages(d: Disk, stem: string, pdf: string, d1: Disk)
    requires !d.Exists(stem)
    requires d1 == d.(folders := d.folders[stem := map[]])
    ensures ExtractFramesEffect(d, stem, []) == (d1, Returned(true))
    ensures ImagesToPdfEffect(d1, stem, pdf).0 == d1
    ensures ImagesToPdfEffect(d1, stem, pdf).1 != Raised
    ensures DeleteFramesEffect(d1, stem) == d
  {
    assert FrameFiles([]) == map[];
    FreshFolderRemoved(d, stem, []);
    assert JpgNames(d1.FolderAt(stem)) == {};
    assert |multiset(SortedNames({}))| == 0;
  }

  /** The pages of an extractor output whose frames all decode, in writing order. */
  function FramePages(out: seq<File>): (pages: seq<Page>)
    requires forall k | 0 <= k < |out| :: out[k].Picture?
    ensures |pages| == |out|
    ensures forall k | 0 <= k < |out| :: pages[k] == out[k].page
  {
    if out == [] then [] else FramePages(out[..|out| - 1]) + [out[|out| - 1].page]
  }

  /** The frames of an extractor output whose frames all decode are pictures, and
      their pages, taken in writing order, are the output's pages. */
  lemma FramesArePictures(out: seq<File>)
    requires forall k | 0 <= k < |out| :: out[k].Picture?
    ensures AllPictures(FrameFiles(out), FrameSeq(|out|))
    ensures PagesOf(FrameFiles(out), FrameSeq(|out|)) == FramePages(out)
  {
    var m, images := FrameFiles(out), FrameSeq(|out|);
    FramesInWritingOrder(out);
    var pages, want := PagesOf(m, images), FramePages(out);
    forall k | 0 <= k < |out| ensures pages[k] == want[k] {
      assert pages[k] == m[images[k]].page;
      assert m[images[k]] == out[k];
    }
    assert |pages| == |want|;
  }

  /** Frame `k + 1` in writing order holds the extractor's output `k`. */
  lemma FramesInWritingOrder(out: seq<File>)
    requires forall k | 0 <= k < |out| :: out[k].Picture?
    ensures AllPictures(FrameFiles(out), FrameSeq(|out|))
    ensures forall k | 0 <= k < |out| :: FrameFiles(out)[FrameSeq(|out|)[k]] == out[k]
  {
    var m, images := FrameFiles(out), FrameSeq(|out|);
    forall k | 0 <= k < |out| ensures images[k] in m && m[images[k]] == out[k] {
      assert images[k] == FrameName(k + 1);
    }
  }

  /** `images_to_pdf` over a folder holding exactly a fresh extractor output whose
      frames all decode writes the frames' pages in writing order. */
  lemma AssembleFreshFrames(d: Disk, stem: string, pdf: string, out: seq<File>)
    requires d.FolderAt(stem) == FrameFiles(out) && !d.Exists(pdf)
    requires 0 < |out| < 10000
    requires forall k | 0 <= k < |out| :: out[k].Picture?
    ensures ImagesToPdfEffect(d, stem, pdf)
         == (d.(files := d.files[pdf := Document(FramePages(out))]), Returned(true))
  {
    FramesSortInWritingOrder(out);
    FramesArePictures(out);
  }

  /** `images_to_pdf` over a fresh extractor output whose frames all decode, of any
      length, returns True after writing the PDF and changes nothing else. */
  lemma AssembleFreshOutput(d: Disk, stem: string, pdf: string, out: seq<File>)
    requires d.FolderAt(stem) == FrameFiles(out) && !d.Exists(pdf)
    requires 0 < |out|
    requires forall k | 0 <= k < |out| :: out[k].Picture?
    ensures exists doc :: ImagesToPdfEffect(d, stem, pdf) == (d.WithFile(pdf, doc), Returned(true))
  {
    var m := FrameFiles(out);
    var images := SortedNames(JpgNames(m));
    FrameFilesArePictures(out);
    JpgsArePictures(m);
    FrameNameShape(1);
    assert FrameName(1) in JpgNames(m);
    SortedNamesEmpty(JpgNames(m));
    var doc := Document(PagesOf(m, images));
    assert ImagesToPdfEffect(d, stem, pdf) == (d.WithFile(pdf, doc), Returned(true));
  }

  /** Every file an extractor output whose frames all decode writes is a picture. */
  lemma FrameFilesArePictures(out: seq<File>)
    requires forall k | 0 <= k < |out| :: out[k].Picture?
    ensures forall n | n in FrameFiles(out) :: FrameFiles(out)[n].Picture?
  {
    var m := FrameFiles(out);
    forall n | n in m ensures m[n].Picture? {
      var i :| 1 <= i <= |out| && n == FrameName(i);
    }
  }

  /** `images_to_pdf` over a fresh extractor output with an undecodable frame raises
      and writes nothing, however many frames there are. */
  lemma AssembleBadFrame(d: Disk, stem: string, pdf: string, out: seq<File>, k: nat)
    requires d.FolderAt(stem) == FrameFiles(out) && !d.Exists(pdf)
    requires k < |out| && !out[k].Picture?
    ensures ImagesToPdfEffect(d, stem, pdf) == (d, Raised)
  {
    var m := FrameFiles(out);
    FrameNameShape(k + 1);
    assert FrameName(k + 1) in JpgNames(m) && !m[FrameName(k + 1)].Picture?;
    ImagesToPdfOutcomes(d, stem, pdf);
  }

  /** A job that returns True leaves no `.jpg` in its frame folder; a job that returns
      False has written no PDF. */
  lemma ProcessVideoCleansUp(d: Disk, video: string, out: seq<File>)
    ensures var (d', ok) := ProcessVideoEffect(d, video, out);
      && (ok ==> JpgNames(d'.FolderAt(JobStem(ExtractNumber(video)))) == {})
      && (!ok ==> d'.files == d.files)
  {
    var key := ExtractNumber(video);
    JobCleansUp(d, JobStem(key), PdfName(key), out);
  }

  lemma JobCleansUp(d: Disk, stem: string, pdf: string, out: seq<File>)
    ensures var (d', ok) := JobEffect(d, stem, pdf, out);
      && (ok ==> JpgNames(d'.FolderAt(stem)) == {})
      && (!ok ==> d'.files == d.files)
  {
    var (d1, x1) := ExtractFramesEffect(d, stem, out);
    ExtractFramesResult(d, stem, out);
    if x1 != Raised {
      var (d2, x2) := ImagesToPdfEffect(d1, stem, pdf);
      ImagesToPdfResult(d1, stem, pdf);
      if x2 != Raised {
        DeleteFramesResult(d2, stem);
      }
    }
  }
}
