/**
  The image folder's bookkeeping: which saved `.jpg` files `_enforce_retention`
  removes so that only the newest `MAX_SAVED_IMAGES` remain, and which paths
  `list_latest_images` returns. A directory listing is given as the entries
  with their modification times, or None when the folder does not exist;
  removing a file is represented by the path handed to `os.remove`.
*/
module Retention {
  import opened Wrappers

  /** A directory entry: its file name and its modification time. */
  datatype FileEntry = FileEntry(name: string, mtime: real)

  /** `str.lower()` on one character, for the ASCII letters. */
  function LowerChar(c: char): (l: char)
    ensures 'A' <= c <= 'Z' ==> l as int == c as int + 32
    ensures !('A' <= c <= 'Z') ==> l == c
  {
    if 'A' <= c <= 'Z' then (c as int + 32) as char else c
  }

  function Lower(s: string): (l: string)
    ensures |l| == |s| && forall k :: 0 <= k < |s| ==> l[k] == LowerChar(s[k])
  {
    seq(|s|, k requires 0 <= k < |s| => LowerChar(s[k]))
  }

  /** `f.lower().endswith(".jpg")`. */
  predicate IsJpg(name: string) {
    |name| >= 4 && Lower(name[|name| - 4..]) == ".jpg"
  }

  /** The extension test ignores the case of the letters and nothing else. */
  lemma JpgAnyCase(stem: string)
    ensures IsJpg(stem + ".jpg") && IsJpg(stem + ".JPG") && IsJpg(stem + ".Jpg")
    ensures !IsJpg(stem + ".jpeg") && !IsJpg(stem + ".png")
  {
    assert (stem + ".jpg")[|stem|..] == ".jpg";
    assert (stem + ".JPG")[|stem|..] == ".JPG";
    assert (stem + ".Jpg")[|stem|..] == ".Jpg";
    assert (stem + ".jpeg")[|stem| + 1..] == "jpeg" && Lower("jpeg")[0] == 'j';
    assert (stem + ".png")[|stem|..] == ".png" && Lower(".png")[1] == 'p';
  }

  /** The `.jpg` entries of a listing, in listing order. */
  function JpgFiles(entries: seq<FileEntry>): (files: seq<FileEntry>)
    ensures |files| <= |entries|
    ensures forall e :: e in files <==> e in entries && IsJpg(e.name)
    ensures multiset(files) <= multiset(entries)
  {
    if entries == [] then []
    else
      var rest := JpgFiles(entries[1..]);
      assert entries == [entries[0]] + entries[1..];
      if IsJpg(entries[0].name) then [entries[0]] + rest else rest
  }

  /**
    `os.path.join(folder, name)`: a name starting with a slash replaces the
    folder; otherwise a slash separates them unless the folder is empty or
    already ends in one.
  */
  function JoinPath(folder: string, name: string): (p: string)
  {
    if |name| > 0 && name[0] == '/' then name
    else if folder == [] || folder[|folder| - 1] == '/' then folder + name
    else folder + "/" + name
  }

  /** The full paths of the entries, in order. */
  function Paths(folder: string, files: seq<FileEntry>): (ps: seq<string>)
    ensures |ps| == |files| && forall k :: 0 <= k < |files| ==> ps[k] == JoinPath(folder, files[k].name)
  {
    seq(|files|, k requires 0 <= k < |files| => JoinPath(folder, files[k].name))
  }

  /** Whether `a` may precede `b`: oldest first, or newest first with `reverse=True`. */
  predicate Before(a: FileEntry, b: FileEntry, newestFirst: bool) {
    if newestFirst then a.mtime >= b.mtime else a.mtime <= b.mtime
  }

  predicate Sorted(files: seq<FileEntry>, newestFirst: bool) {
    forall j, k :: 0 <= j < k < |files| ==> Before(files[j], files[k], newestFirst)
  }

  /** Inserts `e` before the first entry it may precede; entries with equal times keep `e` first. */
  function Insert(e: FileEntry, files: seq<FileEntry>, newestFirst: bool): (r: seq<FileEntry>)
    ensures |r| == |files| + 1 && multiset(r) == multiset(files) + multiset{e}
    ensures forall x :: x in r <==> x == e || x in files
  {
    if files == [] || Before(e, files[0], newestFirst) then [e] + files
    else
      assert files == [files[0]] + files[1..];
      [files[0]] + Insert(e, files[1..], newestFirst)
  }

  /**
    `files.sort(key=getmtime)`, or with `reverse=True` when `newestFirst`: an
    insertion sort that, like Python's, keeps entries with equal times in
    their listing order.
  */
  function SortByMtime(files: seq<FileEntry>, newestFirst: bool): (r: seq<FileEntry>)
    ensures |r| == |files| && multiset(r) == multiset(files)
  {
    if files == [] then []
    else
      assert files == [files[0]] + files[1..];
      Insert(files[0], SortByMtime(files[1..], newestFirst), newestFirst)
  }

  /** A head that may precede every entry of a sorted list keeps it sorted. */
  lemma ConsSorted(h: FileEntry, files: seq<FileEntry>, newestFirst: bool)
    requires Sorted(files, newestFirst)
    requires forall x :: x in files ==> Before(h, x, newestFirst)
    ensures Sorted([h] + files, newestFirst)
  {
    var r := [h] + files;
    forall j, k | 0 <= j < k < |r|
      ensures Before(r[j], r[k], newestFirst)
    {
      assert r[k] == files[k - 1];
      if j > 0 {
        assert r[j] == files[j - 1];
      }
    }
  }

  /** Inserting into a sorted list keeps it sorted. */
  lemma {:induction false} InsertSorted(e: FileEntry, files: seq<FileEntry>, newestFirst: bool)
    requires Sorted(files, newestFirst)
    ensures Sorted(Insert(e, files, newestFirst), newestFirst)
  {
    if files == [] || Before(e, files[0], newestFirst) {
      forall x | x in files
        ensures Before(e, x, newestFirst)
      {
        var k :| 0 <= k < |files| && files[k] == x;
        assert k == 0 || Before(files[0], files[k], newestFirst);
      }
      ConsSorted(e, files, newestFirst);
    } else {
      var rest := files[1..];
      assert Sorted(rest, newestFirst) by {
        forall j, k | 0 <= j < k < |rest|
          ensures Before(rest[j], rest[k], newestFirst)
        {
          assert rest[j] == files[j + 1] && rest[k] == files[k + 1];
        }
      }
      InsertSorted(e, rest, newestFirst);
      forall x | x in Insert(e, rest, newestFirst)
        ensures Before(files[0], x, newestFirst)
      {
        if x != e {
          var k :| 0 <= k < |rest| && rest[k] == x;
          assert files[k + 1] == x;
        }
      }
      ConsSorted(files[0], Insert(e, rest, newestFirst), newestFirst);
    }
  }

  /** The sort orders the entries by time and is a permutation of them. */
  lemma {:induction false} SortByMtimeSorted(files: seq<FileEntry>, newestFirst: bool)
    ensures Sorted(SortByMtime(files, newestFirst), newestFirst)
    ensures multiset(SortByMtime(files, newestFirst)) == multiset(files)
  {
    if files != [] {
      SortByMtimeSorted(files[1..], newestFirst);
      InsertSorted(files[0], SortByMtime(files[1..], newestFirst), newestFirst);
    }
  }

  /** Cutting a sorted list leaves every entry of the front allowed before every entry of the back. */
  lemma SplitSorted(sorted: seq<FileEntry>, n: nat, newestFirst: bool)
    requires Sorted(sorted, newestFirst) && n <= |sorted|
    ensures Sorted(sorted[..n], newestFirst)
    ensures forall a, b :: a in sorted[..n] && b in sorted[n..] ==> Before(a, b, newestFirst)
  {
    assert forall k :: 0 <= k < n ==> sorted[..n][k] == sorted[k];
    forall a, b | a in sorted[..n] && b in sorted[n..]
      ensures Before(a, b, newestFirst)
    {
      var j :| 0 <= j < n && sorted[j] == a;
      var k :| n <= k < |sorted| && sorted[k] == b;
    }
  }

  /** The folder `_enforce_retention` works on: the one given, or the save folder when none (or an empty name) is given. */
  function RetentionFolder(folder: Option<string>, saveDir: string): (base: string)
    ensures folder.Some? && folder.value != [] ==> base == folder.value
    ensures folder.None? || folder.value == [] ==> base == saveDir
  {
    if folder.Some? && folder.value != [] then folder.value else saveDir
  }

  /**
    The entries `_enforce_retention` deletes from a listing of `.jpg` files:
    none while there are at most `maxSaved`; otherwise the `len - maxSaved`
    oldest, which is all of them when `maxSaved` is negative.
  */
  function RetentionVictims(files: seq<FileEntry>, maxSaved: int): seq<FileEntry> {
    if |files| <= maxSaved then []
    else SortByMtime(files, false)[..IMin(|files| - maxSaved, |files|)]
  }

  /** The `.jpg` files `_enforce_retention` leaves in place. */
  function RetentionSurvivors(files: seq<FileEntry>, maxSaved: int): seq<FileEntry> {
    if |files| <= maxSaved then files
    else SortByMtime(files, false)[IMin(|files| - maxSaved, |files|)..]
  }

  /**
    At most `maxSaved` files survive, and none is removed while there are no
    more: `max(0, min(len, len - maxSaved))` entries are removed, and victims
    and survivors together are exactly the listing.
  */
  lemma RetentionPartition(files: seq<FileEntry>, maxSaved: int)
    ensures var v, s := RetentionVictims(files, maxSaved), RetentionSurvivors(files, maxSaved);
      && |v| == (if |files| <= maxSaved then 0 else IMin(|files| - maxSaved, |files|))
      && (maxSaved >= 0 ==> |s| == IMin(|files|, maxSaved))
      && multiset(v) + multiset(s) == multiset(files)
  {
    if |files| > maxSaved {
      var sorted := SortByMtime(files, false);
      var n := IMin(|files| - maxSaved, |files|);
      assert sorted == sorted[..n] + sorted[n..];
    }
  }

  /** No victim is newer than any survivor. */
  lemma RetentionVictimsOldest(files: seq<FileEntry>, maxSaved: int)
    ensures forall a, b :: a in RetentionVictims(files, maxSaved) && b in RetentionSurvivors(files, maxSaved) ==> a.mtime <= b.mtime
  {
    if |files| > maxSaved {
      SortByMtimeSorted(files, false);
      SplitSorted(SortByMtime(files, false), IMin(|files| - maxSaved, |files|), false);
    }
  }

  /**
    `_enforce_retention`: nothing when the folder is missing or holds at most
    `maxSaved` `.jpg` files; otherwise `os.remove` on the oldest surplus, one
    after another. A removal that fails is ignored and the loop goes on, so
    the result is every path the loop hands to `os.remove`.
  */
  method EnforceRetention(listing: Option<seq<FileEntry>>, folder: Option<string>, saveDir: string, maxSaved: int)
    returns (removed: seq<string>)
    ensures listing.None? ==> removed == []
    ensures listing.Some? ==>
      removed == Paths(RetentionFolder(folder, saveDir), RetentionVictims(JpgFiles(listing.value), maxSaved))
  {
    removed := [];
    var base := RetentionFolder(folder, saveDir);
    if listing.None? {
      return;
    }
    var files := JpgFiles(listing.value);
    if |files| <= maxSaved {
      return;
    }
    files := SortByMtime(files, false);
    var toDelete := |files| - maxSaved;
    removed := RemoveOldest(files, base, IMin(toDelete, |files|));
  }

  /** `for p in files[:n]: os.remove(p)`, a failed removal being ignored: the paths handed to `os.remove`, in order. */
  method RemoveOldest(files: seq<FileEntry>, base: string, n: nat) returns (removed: seq<string>)
    requires n <= |files|
    ensures removed == Paths(base, files[..n])
  {
    removed := [];
    for i := 0 to n
      invariant |removed| == i && forall k :: 0 <= k < i ==> removed[k] == JoinPath(base, files[k].name)
    {
      removed := removed + [JoinPath(base, files[i].name)];
    }
  }

  /** `seq[:limit]` for a list of `n` items: the length of the prefix Python takes, counting a negative limit from the end. */
  function PrefixLength(n: nat, limit: int): (m: nat)
    ensures m <= n
    ensures limit >= 0 ==> m == IMin(limit, n)
    ensures limit < 0 ==> m == (if n + limit < 0 then 0 else n + limit)
  {
    if limit >= 0 then IMin(limit, n)
    else if n + limit < 0 then 0
    else n + limit
  }

  /** The entries `list_latest_images` reports: the `.jpg` files, newest first, cut to `limit`; none when the folder is missing. */
  function LatestEntries(listing: Option<seq<FileEntry>>, limit: int): seq<FileEntry> {
    if listing.None? then []
    else
      var files := SortByMtime(JpgFiles(listing.value), true);
      files[..PrefixLength(|files|, limit)]
  }

  /** `list_latest_images(limit)`: the full paths of those entries. */
  function LatestImages(listing: Option<seq<FileEntry>>, saveDir: string, limit: int): (paths: seq<string>)
    ensures |paths| == |LatestEntries(listing, limit)|
  {
    Paths(saveDir, LatestEntries(listing, limit))
  }

  /** The latest images are `.jpg` entries of the listing, as many as the slice allows; none when the folder is missing. */
  lemma LatestEntriesFromListing(listing: Option<seq<FileEntry>>, limit: int)
    ensures var r := LatestEntries(listing, limit);
      && (listing.None? ==> r == [])
      && (listing.Some? ==>
            && |r| == PrefixLength(|JpgFiles(listing.value)|, limit)
            && multiset(r) <= multiset(JpgFiles(listing.value))
            && forall e :: e in r ==> e in listing.value && IsJpg(e.name))
  {
    if listing.Some? {
      var files := JpgFiles(listing.value);
      var sorted := SortByMtime(files, true);
      var n := PrefixLength(|sorted|, limit);
      assert sorted == sorted[..n] + sorted[n..];
      assert multiset(sorted[..n]) <= multiset(files);
      forall e | e in sorted[..n]
        ensures e in files
      {
        assert e in multiset(sorted[..n]);
      }
    }
  }

  /** An entry of the list that is not in a prefix of its sort lies in the rest of the sort. */
  lemma OmittedInSuffix(files: seq<FileEntry>, newestFirst: bool, n: nat, b: FileEntry)
    requires n <= |files| && b in files && b !in SortByMtime(files, newestFirst)[..n]
    ensures b in SortByMtime(files, newestFirst)[n..]
  {
    var sorted := SortByMtime(files, newestFirst);
    assert b in multiset(sorted);
    assert sorted == sorted[..n] + sorted[n..];
  }

  /** A prefix of the newest-first sort is newest first, and nothing outside it is newer than anything in it. */
  lemma NewestPrefix(files: seq<FileEntry>, n: nat)
    requires n <= |files|
    ensures var r := SortByMtime(files, true)[..n];
      && Sorted(r, true)
      && forall a, b :: a in r && b in files && b !in r ==> a.mtime >= b.mtime
  {
    var sorted := SortByMtime(files, true);
    SortByMtimeSorted(files, true);
    SplitSorted(sorted, n, true);
    forall a, b | a in sorted[..n] && b in files && b !in sorted[..n]
      ensures a.mtime >= b.mtime
    {
      OmittedInSuffix(files, true, n, b);
    }
  }

  /** The latest images come newest first, and every `.jpg` entry left out is no newer than any reported one. */
  lemma LatestEntriesNewest(listing: Option<seq<FileEntry>>, limit: int)
    requires listing.Some?
    ensures var r := LatestEntries(listing, limit);
      && Sorted(r, true)
      && forall a, b :: a in r && b in JpgFiles(listing.value) && b !in r ==> a.mtime >= b.mtime
  {
    var files := JpgFiles(listing.value);
    NewestPrefix(files, PrefixLength(|files|, limit));
  }
}
