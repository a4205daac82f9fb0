# Lecture videos to PDF notes, modelled in Dafny

`video_to_pdf_notes_script.py.py` turns numbered lecture videos into notes. It
finds the `.mp4`, `.webm` and `.mkv` files of `video/` and sorts them by the number
their names start with. For each video it runs one job:

- sample frames with ffmpeg into `pdf/<NNN>/frame_0001.jpg`, `frame_0002.jpg`, ...;
- assemble every `.jpg` of that folder, in name order, into `pdf/<NNN>.pdf`;
- delete the frames.

It then concatenates every `pdf/*.pdf`, ordered by the number of its stem, into
`pdf/final_merged.pdf`. Each stage skips work whose output is already there, so
that an interrupted run can be restarted.

The project models this core. It is organised by module:

- `Naming` covers `extract_number`, `str(n).zfill(3)` and the names a job uses.
  It proves the round trip that makes the merge order follow the video order.
- `Sorting` gives Python's `sorted` with a key as a stable insertion sort, with
  Python's string order.
- `Catalog` covers `main`'s video discovery.
- `Disk` is the output folder as a value: plain files and flat sub-folders. A file
  is a decodable picture (one page), a readable PDF (a sequence of pages) or
  something neither library can read.
- `Stages` gives each stage as a function from the folder before to the folder
  after and the call's outcome: returned a value, or raised. It proves what each
  stage promises, that each job touches only its own two names, and that jobs
  with different keys commute.
- `Jobs` covers whole jobs: fresh, resumed, failing and colliding. It also has
  the job loop of `main`.
- `Merge` covers `merge_all_pdfs`.
- `FreshRun` covers the end-to-end promise of a first run: one merged document,
  with the videos in key order and each video's frames in extraction order.
- `Pipeline` has the output folder as a class whose fields change in place. The
  script's functions that change the output folder (`extract_frames`,
  `images_to_pdf`, `delete_frames`, `process_video`, `merge_all_pdfs` and the body
  of `main`) are methods of that class. Each is proved to have the effect the
  `Stages`, `Merge` and `Jobs` modules give it. The globs are loops that yield the
  matching entries in an order chosen by the operating system. `extract_number`
  and the name derivations stay functions (`Naming`).

Behaviour of the code that the model keeps and states:

- Discovery does not break ties by file name. Videos with equal keys keep the
  order the globs listed them in (`Catalog.Discover`).
- An existing PDF does not make a job skip every stage. The job still creates
  its frame folder, runs the extractor again, and deletes the frames
  (`Stages.ProcessVideoResumes`).
- A frame that cannot be decoded raises inside `images_to_pdf`. That skips
  `delete_frames`, so the frames stay behind (`Jobs.ProcessVideoBadFrame`).
- A failing extractor is not noticed. The job returns True without writing a
  PDF (`Jobs.ProcessVideoWithoutFrames`).
- A name without a leading number gets the key 999999999. That key is an
  ordinary number: such a video sorts level with a video numbered 999999999 and
  before any video numbered above it (`Catalog.UnnumberedAmongNumbered`). All
  such videos share the folder `999999999` and the PDF `999999999.pdf`, so after
  the first one's job has written that PDF, the others' jobs change nothing
  (`Naming.NoNumberStem`, `Jobs.UnnumberedVideosCollide`).

## Model

| member | source | states |
|---|---|---|
| Naming.Str | video_to_pdf_notes_script.py.py:138 | `str(n)`: a non-empty numeral, no leading zero, whose value is `n` |
| Naming.ZFill | video_to_pdf_notes_script.py.py:138 | `zfill(w)`: length max(w, len), ends with the original, padded with '0' only |
| Naming.LeadingDigits | video_to_pdf_notes_script.py.py:49 | the `(\d+)` match at position 0: a digit prefix that stops at a non-digit or at the end |
| Naming.ExtractNumber | video_to_pdf_notes_script.py.py:47-52 | a name that is empty or does not start with a digit gets the sentinel 999999999 |
| Naming.ExtractNumberOfRun | video_to_pdf_notes_script.py.py:47-51 | a digit run followed by a non-digit (or nothing) parses to the run's value |
| Naming.ExtractNumberExample | video_to_pdf_notes_script.py.py:48 | `'012 Lecture.mp4'` gives 12 |
| Naming.NoNumberStem | video_to_pdf_notes_script.py.py:52 | every name without a leading number has the stem `999999999` and the PDF `999999999.pdf` |
| Naming.JobStem | video_to_pdf_notes_script.py.py:138 | the zero-padded stem is all digits, of length max(3, len(str(key))) |
| Naming.PdfName | video_to_pdf_notes_script.py.py:140 | definition; properties in `JobNamesDisjoint` and `PdfKeyRoundTrip` |
| Naming.PaddedValue | video_to_pdf_notes_script.py.py:138 | zero padding keeps a numeral's value |
| Naming.JobStemRoundTrip | video_to_pdf_notes_script.py.py:138-140 | `extract_number(str(n).zfill(3)) == n` for every n |
| Naming.JobStemInjective | video_to_pdf_notes_script.py.py:138-140 | equal stems mean equal keys |
| Naming.PdfKeyRoundTrip | video_to_pdf_notes_script.py.py:165-168 | a job PDF matches `*.pdf` and the merge's key of it is the job's key |
| Naming.JobNamesDisjoint | video_to_pdf_notes_script.py.py:138-140 | folder name differs from every PDF name; distinct keys give distinct names; neither is `final_merged.pdf` |
| Naming.FrameNameShape | video_to_pdf_notes_script.py.py:71 | every `frame_%04d.jpg` matches both `frame_*.jpg` and `*.jpg` |
| Naming.FrameNameCounter | video_to_pdf_notes_script.py.py:71 | the text between `frame_` and `.jpg` is the counter padded to four digits |
| Naming.FrameNameInjective | video_to_pdf_notes_script.py.py:71 | different counters give different frame names |
| Naming.FrameName | video_to_pdf_notes_script.py.py:71 | definition; properties in `FrameNameShape`, `FrameNameCounter` and `FrameNameInjective` |
| Sorting.SortBy | video_to_pdf_notes_script.py.py:200-205 | `sorted(..., key=...)` returns a permutation of its input |
| Sorting.SortBySorted | video_to_pdf_notes_script.py.py:200-205 | under a strict weak order, no later element is below an earlier one |
| Sorting.SortByStable | video_to_pdf_notes_script.py.py:200-205 | stability: the elements ranked level with any y keep their input order |
| Sorting.InsertLevel | video_to_pdf_notes_script.py.py:200-205 | one insertion step keeps the order of the elements level with y |
| Sorting.SortedUnique | video_to_pdf_notes_script.py.py:99 | two sorted permutations of each other under a total order are equal |
| Sorting.StrLessOrder | video_to_pdf_notes_script.py.py:99 | Python's string order is a strict total order |
| Sorting.StrLess | video_to_pdf_notes_script.py.py:99 | definition; properties in `StrLessOrder`, `StrLessPrefix` and `StrLessSuffix` |
| Sorting.StrLessPrefix | video_to_pdf_notes_script.py.py:99 | a common prefix keeps string order |
| Sorting.StrLessSuffix | video_to_pdf_notes_script.py.py:99 | equal-length strings keep their order whatever follows them |
| Sorting.SortedNames | video_to_pdf_notes_script.py.py:99 | `sorted(glob)` as a function of the matched set: each name once, strictly ascending |
| Sorting.SortListing | video_to_pdf_notes_script.py.py:99 | sorting any listing of a set gives the same sequence, whatever the glob order |
| Sorting.EnumerationDistinct | video_to_pdf_notes_script.py.py:99 | a glob listing holds no name twice |
| Catalog.VideoBeforeOrder | video_to_pdf_notes_script.py.py:200-205 | ordering by `extract_number(name)` is a strict weak order |
| Catalog.LevelIsSameKey | video_to_pdf_notes_script.py.py:204 | two videos are tied exactly when their keys are equal; no file-name tie-break |
| Catalog.VideoBefore | video_to_pdf_notes_script.py.py:204 | definition; properties in `VideoBeforeOrder`, `LevelIsSameKey` and `UnnumberedAmongNumbered` |
| Catalog.UnnumberedAmongNumbered | video_to_pdf_notes_script.py.py:47-52 | a video without a leading number sorts after videos numbered below 999999999, level with those numbered 999999999 and before those numbered above it |
| Catalog.Discover | video_to_pdf_notes_script.py.py:200-205 | the video list is a permutation of the three glob lists, non-decreasing by key, with tied videos in glob order |
| Catalog.SuffixesExclusive | video_to_pdf_notes_script.py.py:201-203 | no name matches two of the three video globs |
| Catalog.DiscoverFindsEveryVideo | video_to_pdf_notes_script.py.py:200-209 | the list holds every `.mp4`/`.webm`/`.mkv` of the folder once; it is empty exactly when the folder holds none |
| Disk.FrameFiles | video_to_pdf_notes_script.py.py:71-85 | the extractor's output n frames are exactly `frame_0001.jpg`.. `frame_n`, frame i holding output i |
| Disk.JpgNames | video_to_pdf_notes_script.py.py:99 | definition of what the glob `*.jpg` matches; properties in `Stages.ImagesToPdfOutcomes` and `Stages.DeleteFramesResult` |
| Disk.HasFrames | video_to_pdf_notes_script.py.py:65 | definition; properties in `Pipeline.AnyFrameFile` and `Stages.ExtractFramesSkipsOnRerun` |
| Disk.FrameFilesExtend | video_to_pdf_notes_script.py.py:71-85 | writing the next frame adds one new name holding that frame and keeps the earlier ones |
| Disk.FrameNameFresh | video_to_pdf_notes_script.py.py:71 | each frame's name is new among the frames written before it |
| Disk.PagesOf | video_to_pdf_notes_script.py.py:106-109 | the saved document has one page per image, in list order |
| Disk.AllDocumentsOfEnumeration | video_to_pdf_notes_script.py.py:174-176 | the listed PDFs are all readable exactly when every PDF of the folder is |
| Disk.ConcatAppend | video_to_pdf_notes_script.py.py:174-177 | appending readers appends their pages, each document's order kept |
| Disk.ConcatOne | video_to_pdf_notes_script.py.py:176-177 | one appended reader contributes exactly its own pages |
| Disk.NumeralOrder | video_to_pdf_notes_script.py.py:99 | between equal-length numerals, numeric order is string order |
| Disk.FrameOrder | video_to_pdf_notes_script.py.py:99 | below 10000, a frame written earlier sorts before one written later |
| Disk.FrameOrderPastWidth | video_to_pdf_notes_script.py.py:71 | `frame_10000.jpg` sorts before `frame_9999.jpg`: past the counter's width, name order is not writing order |
| Disk.FrameSeqEnumerates | video_to_pdf_notes_script.py.py:71-85 | the frame names in writing order list each written frame once |
| Disk.FramesSortInWritingOrder | video_to_pdf_notes_script.py.py:99 | a fresh extraction's `.jpg` files are all its frames, and sorted they are in writing order |
| Stages.ExtractFramesResult | video_to_pdf_notes_script.py.py:62-88 | never returns False; raises exactly when a plain file has the folder's name; skips when a `frame_*.jpg` is there; otherwise adds the extractor's frames; nothing else changes |
| Stages.ExtractFramesSkipsOnRerun | video_to_pdf_notes_script.py.py:65-67 | once frames exist, a second extraction changes nothing, whatever the extractor would write |
| Stages.ExtractFramesEffect | video_to_pdf_notes_script.py.py:62-88 | definition; properties in `ExtractFramesResult`, `ExtractFramesSkipsOnRerun` and `ExtractFramesFrame` |
| Stages.ImagesToPdfResult | video_to_pdf_notes_script.py.py:94-116 | skips with True when the PDF exists; False and nothing written when there is no `.jpg`; raising writes nothing; True writes one page per `.jpg` in ascending name order; folders unchanged |
| Stages.ImagesToPdfOutcomes | video_to_pdf_notes_script.py.py:94-116 | returns False exactly when there is no PDF and no `.jpg`; raises exactly when there is no PDF and some `.jpg` does not decode; returns True otherwise |
| Stages.SortedNamesEmpty | video_to_pdf_notes_script.py.py:99-100 | the sorted glob is empty exactly when nothing matches |
| Stages.JpgsArePictures | video_to_pdf_notes_script.py.py:99-107 | opening the sorted `.jpg` files succeeds exactly when every `.jpg` of the folder decodes |
| Stages.ImagesToPdfEffect | video_to_pdf_notes_script.py.py:94-116 | definition; properties in `ImagesToPdfResult`, `ImagesToPdfOutcomes` and `ImagesToPdfIdempotent` |
| Stages.ImagesToPdfIdempotent | video_to_pdf_notes_script.py.py:95-97 | a second call changes nothing and ends the same way |
| Stages.DeleteFramesResult | video_to_pdf_notes_script.py.py:122-128 | no `.jpg` left in the folder; its other files kept; removed exactly when nothing else was in it; nothing else changes |
| Stages.DeleteFramesIdempotent | video_to_pdf_notes_script.py.py:122-128 | a second delete changes nothing |
| Stages.DeleteKeepsFiles | video_to_pdf_notes_script.py.py:122-128 | deleting frames does not depend on, or change, the plain files |
| Stages.DeleteFramesEffect | video_to_pdf_notes_script.py.py:122-128 | definition; properties in `DeleteFramesResult` and `DeleteFramesIdempotent` |
| Stages.ExtractFramesKeepsValid | video_to_pdf_notes_script.py.py:62-88 | extraction never gives a file and a folder one name |
| Stages.ImagesToPdfKeepsValid | video_to_pdf_notes_script.py.py:94-116 | assembly never gives a file and a folder one name |
| Stages.DeleteFramesKeepsValid | video_to_pdf_notes_script.py.py:122-128 | deletion never gives a file and a folder one name |
| Stages.ProcessVideoKeepsValid | video_to_pdf_notes_script.py.py:134-153 | a job never gives a file and a folder one name |
| Stages.ExtractFramesFrame | video_to_pdf_notes_script.py.py:62-88 | extraction changes only the job folder |
| Stages.ExtractFramesLocal | video_to_pdf_notes_script.py.py:62-88 | extraction's outcome and effect depend only on the job folder's name |
| Stages.ImagesToPdfFrame | video_to_pdf_notes_script.py.py:94-116 | assembly changes only the PDF |
| Stages.ImagesToPdfLocal | video_to_pdf_notes_script.py.py:94-116 | assembly depends only on the folder and the PDF |
| Stages.DeleteFramesFrame | video_to_pdf_notes_script.py.py:122-128 | deletion changes only the folder |
| Stages.DeleteFramesLocal | video_to_pdf_notes_script.py.py:122-128 | deletion depends only on the folder |
| Stages.JobFrame | video_to_pdf_notes_script.py.py:142-146 | a job changes only its folder and its PDF |
| Stages.ProcessVideoFrame | video_to_pdf_notes_script.py.py:134-153 | `process_video` touches only the two names derived from its video's key |
| Stages.JobLocal | video_to_pdf_notes_script.py.py:142-146 | a job's result and effect depend only on its folder and PDF |
| Stages.ProcessVideoLocal | video_to_pdf_notes_script.py.py:134-153 | `process_video` depends only on the two names derived from its key |
| Stages.JobEffect | video_to_pdf_notes_script.py.py:142-153 | definition; properties in `JobFrame`, `JobLocal`, `JobCleansUp` and `Jobs.JobSteps` |
| Stages.ProcessVideoEffect | video_to_pdf_notes_script.py.py:134-153 | definition; properties in `ProcessVideoFrame`, `ProcessVideoCleansUp`, `ProcessVideoCommute` and the `Jobs` lemmas |
| Stages.DisjointJobsCommute | video_to_pdf_notes_script.py.py:214-215 | jobs on disjoint names leave the same folder and return the same in either order |
| Stages.ProcessVideoCommute | video_to_pdf_notes_script.py.py:214-215 | jobs for videos with different keys commute, folder and results |
| Stages.FreshFolderExtracted | video_to_pdf_notes_script.py.py:62-88 | extraction into an absent folder makes it holding exactly the extractor's frames |
| Stages.FreshFolderDeleted | video_to_pdf_notes_script.py.py:122-128 | deleting a folder of frames only removes it and restores the folder before extraction |
| Stages.FreshFolderRemoved | video_to_pdf_notes_script.py.py:142-146 | extracting into an absent folder then deleting the frames leaves the output folder as it was |
| Stages.FrameFilesAllJpg | video_to_pdf_notes_script.py.py:71 | the extractor writes only `.jpg` files |
| Stages.ProcessVideoResumes | video_to_pdf_notes_script.py.py:142-146 | a rerun with the PDF present and the folder gone re-extracts, then ends with True and no change |
| Stages.JobResumes | video_to_pdf_notes_script.py.py:142-146 | the same, for a job named by its folder and PDF |
| Stages.EmptyJobStages | video_to_pdf_notes_script.py.py:142-146 | with no frames: extraction makes an empty folder, assembly writes nothing and does not raise, deletion removes the folder |
| Stages.FramePages | video_to_pdf_notes_script.py.py:106-109 | the pages of a decodable extractor output, one per frame in writing order |
| Stages.FramesInWritingOrder | video_to_pdf_notes_script.py.py:106-107 | frame k+1 in writing order holds output frame k, and all are pictures |
| Stages.FramesArePictures | video_to_pdf_notes_script.py.py:106-109 | the frames' pages in writing order are the extractor's pages |
| Stages.AssembleFreshFrames | video_to_pdf_notes_script.py.py:94-116 | assembling a fresh decodable extraction writes its pages in writing order and returns True |
| Stages.AssembleFreshOutput | video_to_pdf_notes_script.py.py:94-116 | assembling a fresh decodable extraction of any length returns True and writes only the PDF |
| Stages.FrameFilesArePictures | video_to_pdf_notes_script.py.py:71-85 | a decodable extractor output writes only pictures |
| Stages.AssembleBadFrame | video_to_pdf_notes_script.py.py:106-107 | assembling an extraction with an undecodable frame raises and writes nothing, whatever the number of frames |
| Stages.JobCleansUp | video_to_pdf_notes_script.py.py:142-153 | a job returning True leaves no `.jpg` in its folder; a job returning False wrote no file |
| Stages.ProcessVideoCleansUp | video_to_pdf_notes_script.py.py:134-153 | the same for `process_video` |
| Jobs.JobSteps | video_to_pdf_notes_script.py.py:142-148 | after extraction, the job ends with False if assembly raised, else deletes the frames and returns True, whatever assembly returned |
| Jobs.FreshJob | video_to_pdf_notes_script.py.py:142-148 | a fresh decodable job writes exactly its PDF, with the frames' pages in writing order, and returns True |
| Jobs.FreshJobAssembles | video_to_pdf_notes_script.py.py:143 | on a fresh job, assembly writes the PDF |
| Jobs.FreshJobCleansUp | video_to_pdf_notes_script.py.py:146 | on a fresh job, deletion after assembly leaves only the PDF |
| Jobs.FreshJobWritesPdf | video_to_pdf_notes_script.py.py:142-148 | a fresh decodable job of any length returns True and changes nothing but its PDF |
| Jobs.BadFrameJob | video_to_pdf_notes_script.py.py:142-153 | a fresh job with an undecodable frame returns False, keeps the frames and writes no PDF |
| Jobs.BadFrameAssembles | video_to_pdf_notes_script.py.py:143 | on a fresh job with an undecodable frame, assembly raises and writes nothing |
| Jobs.ProcessVideoWithoutFrames | video_to_pdf_notes_script.py.py:134-153 | an extractor that writes nothing goes unnoticed: True, no PDF, no folder left |
| Jobs.ProcessVideoFreshJob | video_to_pdf_notes_script.py.py:134-153 | a fresh decodable job writes `<NNN>.pdf` with its frames' pages and returns True |
| Jobs.ProcessVideoBadFrame | video_to_pdf_notes_script.py.py:134-153 | an undecodable frame makes `process_video` return False with the frames left behind |
| Jobs.SameKeyCollides | video_to_pdf_notes_script.py.py:138-146 | after one video's fresh job, a second video with the same key returns True and changes nothing |
| Jobs.UnnumberedVideosCollide | video_to_pdf_notes_script.py.py:138-146 | after the fresh job of one video without a leading number, the job of any other such video returns True and changes nothing |
| Jobs.ResumeAfterPdf | video_to_pdf_notes_script.py.py:142-146 | a job whose PDF was just written and whose folder is absent changes nothing |
| Jobs.RunJobs | video_to_pdf_notes_script.py.py:214-215 | one result per video |
| Jobs.RunJobsAppend | video_to_pdf_notes_script.py.py:214-215 | running two job lists one after the other is running their concatenation |
| Jobs.ProcessVideoJobsCommute | video_to_pdf_notes_script.py.py:214-215 | `process_video` jobs with different keys commute from any folder |
| Jobs.RunJobsSwap | video_to_pdf_notes_script.py.py:214-215 | swapping two neighbouring commuting jobs gives the same folder, with their two results swapped |
| Jobs.RunJobsUnchanged | video_to_pdf_notes_script.py.py:214-215 | jobs that each change nothing and return True change nothing together |
| Jobs.RerunChangesNothing | video_to_pdf_notes_script.py.py:200-215 | a rerun over a finished output folder changes nothing and every job returns True |
| Merge.PdfBeforeOrder | video_to_pdf_notes_script.py.py:165-168 | ordering by `extract_number(stem)` is a strict weak order |
| Merge.MergeOrder | video_to_pdf_notes_script.py.py:165-168 | the merge reads a permutation of the listed PDFs, non-decreasing by key, ties in glob order |
| Merge.MergeResult | video_to_pdf_notes_script.py.py:159-182 | skips when `final_merged.pdf` exists; raises exactly when a PDF is unreadable, then writes nothing; otherwise writes only `final_merged.pdf`, holding every PDF's pages in merge order |
| Merge.MergeEffect | video_to_pdf_notes_script.py.py:159-182 | definition; properties in `MergeResult`, `MergeIdempotent` and `MergeWithoutPdfs` |
| Merge.MergeKeepsValid | video_to_pdf_notes_script.py.py:179-180 | the merge never gives a file and a folder one name |
| Merge.AllDocumentsOfListing | video_to_pdf_notes_script.py.py:174-177 | the merge order is all readable exactly when the folder's PDFs are |
| Merge.MergeIdempotent | video_to_pdf_notes_script.py.py:160-163 | once written, the merged file is never rewritten |
| Merge.MergeWithoutPdfs | video_to_pdf_notes_script.py.py:165-180 | with no PDF present the merge still writes an empty `final_merged.pdf` |
| Merge.MergeIgnoresListingOrder | video_to_pdf_notes_script.py.py:165-168 | when no two PDFs share a key, the result does not depend on the glob's order |
| Merge.PdfNames | video_to_pdf_notes_script.py.py:140 | the PDF names of a key list, in order |
| Merge.KeysAscend | video_to_pdf_notes_script.py.py:165-168 | names with strictly ascending keys are already in merge order |
| Merge.PdfNamesKeys | video_to_pdf_notes_script.py.py:165-168 | each job PDF's merge key is its job's key |
| Merge.MergeOrderOfJobPdfs | video_to_pdf_notes_script.py.py:165-168 | job PDFs of ascending keys are merged in key order, whatever the glob order |
| FreshRun.WrittenContent | video_to_pdf_notes_script.py.py:143 | PDFs written under distinct names each hold their own document |
| FreshRun.WrittenKeys | video_to_pdf_notes_script.py.py:143 | exactly the listed PDFs are written |
| FreshRun.ConcatWritten | video_to_pdf_notes_script.py.py:174-177 | reading the written PDFs in order gives their pages one after another |
| FreshRun.FreshJobStep | video_to_pdf_notes_script.py.py:214-215 | one more job that writes its own PDF adds exactly that PDF and a True result |
| FreshRun.RunFreshJobsPrefix | video_to_pdf_notes_script.py.py:214-215 | the first n such jobs add the first n PDFs, all True |
| FreshRun.RunFreshJobs | video_to_pdf_notes_script.py.py:214-215 | such jobs together add exactly their PDFs, all True |
| FreshRun.JobNamesApart | video_to_pdf_notes_script.py.py:138-140 | distinct keys give distinct PDFs, and no folder is named as a PDF |
| FreshRun.PdfNamesDistinct | video_to_pdf_notes_script.py.py:138-140 | distinct keys give distinct PDF names |
| FreshRun.FramesOf | video_to_pdf_notes_script.py.py:106-109 | each video's PDF content: its frames' pages |
| FreshRun.ProcessVideoWritesOwn | video_to_pdf_notes_script.py.py:134-153 | a decodable job writes its own PDF and nothing else, from any folder where its names are free |
| FreshRun.FreshJobs | video_to_pdf_notes_script.py.py:200-215 | a first run over distinct keys writes one PDF per video with its frames in order, every job True, no frame folder left |
| FreshRun.PdfEntriesAdded | video_to_pdf_notes_script.py.py:166 | PDFs added to a folder with none are its only PDFs |
| FreshRun.JobPdfNames | video_to_pdf_notes_script.py.py:140 | job PDFs match `*.pdf` and none is `final_merged.pdf` |
| FreshRun.NoJobPdfs | video_to_pdf_notes_script.py.py:166 | a folder without PDFs holds no job PDF |
| FreshRun.JobPdfsWritten | video_to_pdf_notes_script.py.py:166 | after the jobs, the job PDFs are the only PDFs and there is no merged file |
| FreshRun.JobPdfsListed | video_to_pdf_notes_script.py.py:166 | the glob lists each job PDF once |
| FreshRun.JobPdfsInMergeOrder | video_to_pdf_notes_script.py.py:165-168 | a listing of job PDFs with ascending keys is merged in key order |
| FreshRun.MergeOfJobPdfs | video_to_pdf_notes_script.py.py:159-182 | merging job PDFs of ascending keys writes their pages in key order |
| FreshRun.FreshRunMerges | video_to_pdf_notes_script.py.py:188-219 | a first run over videos of ascending keys ends with `final_merged.pdf` holding every video's frames, videos in key order, frames in extraction order |
| Pipeline.Glob | video_to_pdf_notes_script.py.py:99 | a glob yields every match once, in some order |
| Pipeline.AnyFrameFile | video_to_pdf_notes_script.py.py:65 | `any(glob("frame_*.jpg"))` is True exactly when a frame file exists |
| Pipeline.WriteFrames | video_to_pdf_notes_script.py.py:71-85 | the extractor adds its frames, one file at a time, over what the folder held |
| Pipeline.ReadPictures | video_to_pdf_notes_script.py.py:106-107 | opening the images gives their pages in order, or raises at an undecodable one |
| Pipeline.ReadDocuments | video_to_pdf_notes_script.py.py:174-177 | the reader loop gives every document's pages in order, or raises at an unreadable one |
| Pipeline.OutputDir.constructor | video_to_pdf_notes_script.py.py:198 | `mkdir(exist_ok=True)` keeps what the output folder held |
| Pipeline.OutputDir.ExtractFrames | video_to_pdf_notes_script.py.py:62-88 | the in-place extraction has exactly the effect `ExtractFramesEffect` gives; if no name was both a file and a folder before, none is after |
| Pipeline.OutputDir.ImagesToPdf | video_to_pdf_notes_script.py.py:94-116 | the in-place assembly has exactly the effect `ImagesToPdfEffect` gives; if no name was both a file and a folder before, none is after |
| Pipeline.OutputDir.DeleteFrames | video_to_pdf_notes_script.py.py:122-128 | unlinking the `.jpg` files one by one, then `rmdir`, has exactly the effect `DeleteFramesEffect` gives; if no name was both a file and a folder before, none is after |
| Pipeline.OutputDir.ProcessVideo | video_to_pdf_notes_script.py.py:134-153 | the in-place job has exactly the effect `ProcessVideoEffect` gives; if no name was both a file and a folder before, none is after |
| Pipeline.OutputDir.MergeAllPdfs | video_to_pdf_notes_script.py.py:159-182 | the glob lists every PDF once and the in-place merge has exactly the effect `MergeEffect` gives; if no name was both a file and a folder before, none is after |
| Pipeline.OutputDir.ProcessAll | video_to_pdf_notes_script.py.py:214-215 | the job loop has exactly the effect of `RunJobs`; if no name was both a file and a folder before, none is after |
| Pipeline.OutputDir.RunScript | video_to_pdf_notes_script.py.py:188-219 | discovers every video once, in key order; stops with nothing changed when there is none; otherwise runs the jobs, then the merge; if no name was both a file and a folder before, none is after |

## Left out

- The environment checks (`ffmpeg` on the path, the `video/` folder present), `safe_print`, the stdout re-encoding, the log file and tqdm's progress bar. They only print or return early, and leave no state the model tracks.
- The ffmpeg command line and the GPU flag. What ffmpeg writes is a parameter: a sequence of files, written as `frame_0001.jpg`, `frame_0002.jpg`, .... Its exit status is not modelled because the script does not look at it.
- PIL and pypdf. An image is one opaque page, a PDF is a sequence of pages, and a file that either library cannot read makes the call raise. Colour conversion, image sizes, `close()` and writer internals are not modelled.
- The four-worker thread pool. The jobs run one after another in list order, and `Stages.ProcessVideoCommute` and `Jobs.RunJobsSwap` show that jobs with different keys may run in either order. Jobs with equal keys do not commute (`Jobs.SameKeyCollides`), and interleavings within a job are not modelled.
- Python's `\d` also matches non-ASCII decimal digits. The model accepts ASCII `0`-`9` only.
- `str(n).zfill(3)` is modelled for non-negative n only, which is all `extract_number` returns. The sign handling of `zfill` is left out.
- The operating system's glob order. It is an arbitrary enumeration of the matching names.
- The filesystem outside the output folder. That covers the `video/` folder beyond its list of names, the merged file's byte encoding, and nested sub-folders inside a job folder. Errors from `unlink` other than the file being absent are also left out.
- `Path.stem` strips any last suffix. The model strips only `.pdf`, which is the only suffix the merge's glob yields.
- Jobs.FreshJob: requires fewer than 10000 frames. Past that the names of the frames no longer sort in writing order (`Disk.FrameOrderPastWidth`), and the pages of the PDF come out of order. `Jobs.FreshJobWritesPdf` covers any number of frames, without stating the page order.
- Jobs.ProcessVideoFreshJob: requires fewer than 10000 frames, for the same reason.
- FreshRun.FreshJobs: requires fewer than 10000 frames per video (`FreshRun.GoodOutput`), for the same reason.
- FreshRun.FreshRunMerges: requires fewer than 10000 frames per video, for the same reason. It also requires strictly ascending keys and an output folder without PDFs.
- Jobs.SameKeyCollides: states the collision after a fresh first job only. What two same-key jobs do to each other's frames in other states is not stated.
- Windows path rules. The model follows POSIX: globs match suffixes case-sensitively and `sorted` orders paths by their exact characters. On Windows `*.mp4` also matches `.MP4`, `*.pdf` also matches `.PDF`, and paths sort ignoring case, so discovery, the frame order and the merge's listing can differ there.
