/** Job discovery in `main`: the `.mp4`, `.webm` and `.mkv` files of the video folder,
    sorted by their leading number. */
module Catalog {
  import opened Naming
  import opened Sorting

  /** The order `main` sorts by: `key=lambda f: extract_number(f.name)`. */
  predicate VideoBefore(a: string, b: string)
  {
    ExtractNumber(a) < ExtractNumber(b)
  }

  /** Matches one of the globs `*.mp4`, `*.webm`, `*.mkv`. */
  predicate IsVideo(name: string)
  {
    EndsWith(name, ".mp4") || EndsWith(name, ".webm") || EndsWith(name, ".mkv")
  }

  function Matching(dir: set<string>, suffix: string): set<string>
  {
    set n | n in dir && EndsWith(n, suffix)
  }

  lemma VideoBeforeOrder()
    ensures StrictWeakOrder(VideoBefore)
  {
  }

  /** The video list of `main`: the three glob results, concatenated in the order
      `.mp4`, `.webm`, `.mkv`, then stably sorted by key. It holds exactly the globbed
      files, in non-decreasing key order, and files that share a key keep their
      glob order. */
  function Discover(mp4s: seq<string>, webms: seq<string>, mkvs: seq<string>): (videos: seq<string>)
    ensures multiset(videos) == multiset(mp4s + webms + mkvs)
    ensures forall i, j | 0 <= i < j < |videos| :: ExtractNumber(videos[i]) <= ExtractNumber(videos[j])
    ensures forall y :: LevelWith(videos, y, VideoBefore) == LevelWith(mp4s + webms + mkvs, y, VideoBefore)
  {
    var globbed := mp4s + webms + mkvs;
    VideoBeforeOrder();
    SortBySorted(globbed, VideoBefore);
    forall y ensures LevelWith(SortBy(globbed, VideoBefore), y, VideoBefore) == LevelWith(globbed, y, VideoBefore) {
      SortByStable(globbed, y, VideoBefore);
    }
    SortBy(globbed, VideoBefore)
  }

  /** Two files ranked level by `main`'s sort are exactly those with the same key. */
  lemma LevelIsSameKey(a: string, b: string)
    ensures Level(a, b, VideoBefore) <==> ExtractNumber(a) == ExtractNumber(b)
  {
  }

  /** Where `main` sorts a video without a leading number among numbered ones
      (`<n><rest>`, the rest not starting with a digit): after those numbered below
      999999999, level with those numbered 999999999, and before those numbered
      above it. */
  lemma UnnumberedAmongNumbered(u: string, n: nat, rest: string)
    requires u == [] || !IsDigit(u[0])
    requires rest == [] || !IsDigit(rest[0])
    ensures VideoBefore(Str(n) + rest, u) <==> n < NoNumber
    ensures VideoBefore(u, Str(n) + rest) <==> n > NoNumber
    ensures Level(u, Str(n) + rest, VideoBefore) <==> n == NoNumber
  {
    ExtractNumberOfRun(Str(n), rest);
  }

  lemma SuffixesExclusive(n: string)
    ensures !(EndsWith(n, ".mp4") && EndsWith(n, ".webm"))
    ensures !(EndsWith(n, ".mp4") && EndsWith(n, ".mkv"))
    ensures !(EndsWith(n, ".webm") && EndsWith(n, ".mkv"))
  {
    if EndsWith(n, ".mp4") {
      assert n[|n| - 1] == '4';
    }
    if EndsWith(n, ".webm") {
      assert n[|n| - 1] == 'm';
    }
    if EndsWith(n, ".mkv") {
      assert n[|n| - 1] == 'v';
    }
  }

  /** When each glob lists its matches in the video folder once, the discovered list
      holds every video of the folder exactly once, and is empty only when the folder
      holds no video. */
  lemma DiscoverFindsEveryVideo(dir: set<string>, mp4s: seq<string>, webms: seq<string>, mkvs: seq<string>)
    requires Enumerates(mp4s, Matching(dir, ".mp4"))
    requires Enumerates(webms, Matching(dir, ".webm"))
    requires Enumerates(mkvs, Matching(dir, ".mkv"))
    ensures Enumerates(Discover(mp4s, webms, mkvs), set n | n in dir && IsVideo(n))
    ensures Discover(mp4s, webms, mkvs) == [] <==> forall n | n in dir :: !IsVideo(n)
  {
    var a, b, c := Matching(dir, ".mp4"), Matching(dir, ".webm"), Matching(dir, ".mkv");
    var all := set n | n in dir && IsVideo(n);
    forall n ensures n in a ==> n !in b && n !in c
      ensures n in b ==> n !in c
    {
      SuffixesExclusive(n);
    }
    assert all == a + b + c;
    assert multiset(a + b) == multiset(a) + multiset(b);
    assert multiset(a + b + c) == multiset(a + b) + multiset(c);
    assert multiset(mp4s + webms + mkvs) == multiset(mp4s) + multiset(webms) + multiset(mkvs);
    var videos := Discover(mp4s, webms, mkvs);
    if videos == [] {
      assert |multiset(all)| == 0;
      assert all == {};
      forall n | n in dir ensures !IsVideo(n) {
        assert n !in all;
      }
    } else {
      assert videos[0] in multiset(videos);
    }
  }
}
