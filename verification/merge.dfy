/** `merge_all_pdfs`: every `*.pdf` of the output folder, ordered by the leading number
    of its stem, concatenated into `final_merged.pdf`. */
module Merge {
  import opened Naming
  import opened Sorting
  import opened Disk

  /** The order the merge sorts by: `key=lambda f: extract_number(f.stem)`. */
  predicate PdfBefore(a: string, b: string)
  {
    PdfKey(a) < PdfKey(b)
  }

  lemma PdfBeforeOrder()
    ensures StrictWeakOrder(PdfBefore)
  {
  }

  /** The order the merge reads the globbed PDFs in: all of them, by non-decreasing
      key, PDFs sharing a key in glob order. */
  function MergeOrder(listing: seq<string>): (order: seq<string>)
    ensures multiset(order) == multiset(listing)
    ensures forall i, j | 0 <= i < j < |order| :: PdfKey(order[i]) <= PdfKey(order[j])
    ensures forall y :: LevelWith(order, y, PdfBefore) == LevelWith(listing, y, PdfBefore)
  {
    PdfBeforeOrder();
    SortBySorted(listing, PdfBefore);
    forall y ensures LevelWith(SortBy(listing, PdfBefore), y, PdfBefore) == LevelWith(listing, y, PdfBefore) {
      SortByStable(listing, y, PdfBefore);
    }
    SortBy(listing, PdfBefore)
  }

  /** `merge_all_pdfs()`, the glob `*.pdf` having listed `listing`: skip when the merged
      file exists; raise when an entry is no readable PDF; otherwise write the pages of
      every PDF, in merge order. */
  function MergeEffect(d: Disk, listing: seq<string>): (Disk, Outcome<()>)
  {
    if d.Exists(MergedName) then (d, Returned(()))
    else
      var order := MergeOrder(listing);
      if !AllDocuments(d.files, order) then (d, Raised)
      else (d.(files := d.files[MergedName := Document(Concat(d.files, order))]), Returned(()))
  }

  /** The merge never leaves a plain file and a folder with the same name. */
  lemma MergeKeepsValid(d: Disk, listing: seq<string>)
    requires d.Valid()
    ensures MergeEffect(d, listing).0.Valid()
  {
  }

  /** Every entry the glob lists is a readable PDF exactly when the merge order is. */
  lemma AllDocumentsOfListing(d: Disk, listing: seq<string>)
    requires Enumerates(listing, d.PdfEntries())
    ensures AllDocuments(d.files, MergeOrder(listing))
        <==> forall n | n in d.PdfEntries() :: n in d.files && d.files[n].Document?
  {
    AllDocumentsOfEnumeration(d.files, MergeOrder(listing), d.PdfEntries());
  }

  /** The ways `merge_all_pdfs` ends: it skips when `final_merged.pdf` exists, raises
      and writes nothing when a listed entry is no readable PDF, and otherwise writes
      exactly `final_merged.pdf`, holding the pages of every PDF in merge order. */
  lemma MergeResult(d: Disk, listing: seq<string>)
    requires Enumerates(listing, d.PdfEntries())
    ensures var (d', o) := MergeEffect(d, listing);
      && (d.Exists(MergedName) ==> d' == d && o == Returned(()))
      && (o == Raised <==>
            !d.Exists(MergedName) && exists n | n in d.PdfEntries() :: !(n in d.files && d.files[n].Document?))
      && (o == Raised ==> d' == d)
      && (!d.Exists(MergedName) && o.Returned? ==>
            && d'.folders == d.folders
            && AllDocuments(d.files, MergeOrder(listing))
            && d'.files == d.files[MergedName := Document(Concat(d.files, MergeOrder(listing)))])
  {
    AllDocumentsOfListing(d, listing);
  }

  /** A second merge skips: once `final_merged.pdf` is written it is never rewritten,
      whatever PDFs appear later. */
  lemma MergeIdempotent(d: Disk, listing: seq<string>, again: seq<string>)
    requires MergeEffect(d, listing).1.Returned?
    ensures var d' := MergeEffect(d, listing).0;
      MergeEffect(d', again) == (d', Returned(()))
  {
  }

  /** With no PDF to merge, the merge still writes `final_merged.pdf`, with no page. */
  lemma MergeWithoutPdfs(d: Disk, listing: seq<string>)
    requires Enumerates(listing, d.PdfEntries()) && d.PdfEntries() == {}
    requires !d.Exists(MergedName)
    ensures MergeEffect(d, listing) == (d.(files := d.files[MergedName := Document([])]), Returned(()))
  {
    assert |multiset(listing)| == 0;
  }

  /** When no two PDFs share a key, the merge does not depend on the glob's order. */
  lemma MergeIgnoresListingOrder(d: Disk, l1: seq<string>, l2: seq<string>)
    requires Enumerates(l1, d.PdfEntries()) && Enumerates(l2, d.PdfEntries())
    requires forall a, b | a in d.PdfEntries() && b in d.PdfEntries() && a != b :: PdfKey(a) != PdfKey(b)
    ensures MergeOrder(l1) == MergeOrder(l2)
    ensures MergeEffect(d, l1) == MergeEffect(d, l2)
  {
    var a, b := MergeOrder(l1), MergeOrder(l2);
    assert forall n :: n in a <==> n in multiset(d.PdfEntries());
    SortedUnique(a, b, PdfBefore);
  }

  /** The PDFs of the jobs for `keys`, in that order. */
  function PdfNames(keys: seq<nat>): (names: seq<string>)
    ensures |names| == |keys|
    ensures forall i | 0 <= i < |keys| :: names[i] == PdfName(keys[i])
  {
    if keys == [] then [] else PdfNames(keys[..|keys| - 1]) + [PdfName(keys[|keys| - 1])]
  }

  /** Names whose keys strictly ascend are in merge order, and no two share a key. */
  lemma KeysAscend(a: seq<string>, keys: seq<nat>)
    requires |a| == |keys|
    requires forall i | 0 <= i < |a| :: PdfKey(a[i]) == keys[i]
    requires forall i, j | 0 <= i < j < |keys| :: keys[i] < keys[j]
    ensures SortedBy(a, PdfBefore)
    ensures forall x, y | x in a && y in a && x != y :: PdfBefore(x, y) || PdfBefore(y, x)
  {
    forall x, y | x in a && y in a && x != y ensures PdfBefore(x, y) || PdfBefore(y, x) {
      var i :| 0 <= i < |a| && a[i] == x;
      var j :| 0 <= j < |a| && a[j] == y;
      assert i < j || j < i;
    }
  }

  /** The job PDFs, in key order, carry their keys. */
  lemma PdfNamesKeys(keys: seq<nat>)
    ensures forall i | 0 <= i < |keys| :: PdfKey(PdfNames(keys)[i]) == keys[i]
  {
    forall i | 0 <= i < |keys| ensures PdfKey(PdfNames(keys)[i]) == keys[i] {
      PdfKeyRoundTrip(keys[i]);
    }
  }

  /** When the PDFs the glob lists are the job PDFs of strictly ascending keys, the
      merge reads them in key order, whatever order the glob lists them in. */
  lemma MergeOrderOfJobPdfs(listing: seq<string>, keys: seq<nat>)
    requires forall i, j | 0 <= i < j < |keys| :: keys[i] < keys[j]
    requires multiset(listing) == multiset(PdfNames(keys))
    ensures MergeOrder(listing) == PdfNames(keys)
  {
    var a, b := PdfNames(keys), MergeOrder(listing);
    PdfNamesKeys(keys);
    KeysAscend(a, keys);
    SortedUnique(a, b, PdfBefore);
  }
}
