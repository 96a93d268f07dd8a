/**
 * Choice of the one file of a torrent that is streamed.
 *
 * The server keeps the torrent files whose name ends, ignoring case, in one
 * of six container extensions, sorts them longest first and takes the head;
 * when none matches it sorts all files the same way and takes the head.
 * The sort is stable and looks only at lengths, so among equally long files
 * the earliest one in the torrent's list wins.
 */
module Selection {

  /** A torrent entry as the selection sees it: its name and its byte length. */
  datatype FileRec = FileRec(name: string, length: nat)

  /** ASCII case folding, the only folding the regex's `i` flag applies to these letters. */
  function LowerAscii(c: char): (d: char)
    ensures 'A' <= c <= 'Z' ==> 'a' <= d <= 'z' && d as int - c as int == 32
    ensures !('A' <= c <= 'Z') ==> d == c
  {
    if 'A' <= c <= 'Z' then (c as int + 32) as char else c
  }

  /** ASCII lower-casing of a whole string. */
  function LowerAsciiString(s: string): (r: string)
    ensures |r| == |s|
    ensures forall i :: 0 <= i < |s| ==> r[i] == LowerAscii(s[i])
  {
    if s == [] then [] else [LowerAscii(s[0])] + LowerAsciiString(s[1..])
  }

  /** True when `name` ends in "." followed by `ext` (given in lower case), compared case-insensitively. */
  predicate EndsWithExtension(name: string, ext: string)
  {
    |name| >= |ext| + 1 && LowerAsciiString(name[|name| - |ext| - 1..]) == "." + ext
  }

  /** The test `/\.(mp4|mkv|avi|mov|webm|ts)$/i` applied to a file name. */
  predicate IsMediaName(name: string)
  {
    || EndsWithExtension(name, "mp4")
    || EndsWithExtension(name, "mkv")
    || EndsWithExtension(name, "avi")
    || EndsWithExtension(name, "mov")
    || EndsWithExtension(name, "webm")
    || EndsWithExtension(name, "ts")
  }

  /** Lower-casing the name first does not change the extension test. */
  lemma EndsWithExtensionIgnoresCase(name: string, ext: string)
    ensures EndsWithExtension(LowerAsciiString(name), ext) <==> EndsWithExtension(name, ext)
  {
    var lower := LowerAsciiString(name);
    if |name| >= |ext| + 1 {
      var k := |name| - |ext| - 1;
      var a, b := LowerAsciiString(lower[k..]), LowerAsciiString(name[k..]);
      assert |a| == |b|;
      forall i | 0 <= i < |a| ensures a[i] == b[i] {
        assert lower[k..][i] == LowerAscii(name[k + i]);
      }
      assert a == b;
    }
  }

  /** The media test ignores case: a name and its lower-cased form are both media names or both not. */
  lemma IsMediaNameIgnoresCase(name: string)
    ensures IsMediaName(LowerAsciiString(name)) <==> IsMediaName(name)
  {
    EndsWithExtensionIgnoresCase(name, "mp4");
    EndsWithExtensionIgnoresCase(name, "mkv");
    EndsWithExtensionIgnoresCase(name, "avi");
    EndsWithExtensionIgnoresCase(name, "mov");
    EndsWithExtensionIgnoresCase(name, "webm");
    EndsWithExtensionIgnoresCase(name, "ts");
  }

  /** The `filter` step: the media files, in the torrent's order. */
  function MediaFiles(files: seq<FileRec>): (r: seq<FileRec>)
    ensures forall f :: f in r <==> f in files && IsMediaName(f.name)
    ensures |r| <= |files|
  {
    if files == [] then []
    else if IsMediaName(files[0].name) then [files[0]] + MediaFiles(files[1..])
    else MediaFiles(files[1..])
  }

  /** Sorted by the comparator `b.length - a.length`: no later file is longer. */
  ghost predicate LongestFirst(s: seq<FileRec>)
  {
    forall i, j :: 0 <= i < j < |s| ==> s[j].length <= s[i].length
  }

  /**
   * Inserts `f` into a longest-first list in front of the first file that is
   * not longer than it. Used on files that came after `f` in the input, this
   * keeps equally long files in input order, as a stable sort must.
   */
  function InsertByLength(f: FileRec, s: seq<FileRec>): (r: seq<FileRec>)
    requires LongestFirst(s)
    ensures |r| == |s| + 1
    ensures forall x :: x in r ==> x in s || x == f
    ensures LongestFirst(r)
    ensures multiset(r) == multiset(s) + multiset{f}
    ensures r[0] == if s == [] || s[0].length <= f.length then f else s[0]
  {
    if s == [] || s[0].length <= f.length then [f] + s
    else
      var rest := InsertByLength(f, s[1..]);
      assert s == [s[0]] + s[1..];
      assert forall j :: 0 <= j < |rest| ==> rest[j].length <= s[0].length by {
        forall j | 0 <= j < |rest| ensures rest[j].length <= s[0].length {
          assert rest[j] in rest;
        }
      }
      [s[0]] + rest
  }

  /** How many leading files of `s` are strictly longer than `f`. */
  function LongerPrefix(f: FileRec, s: seq<FileRec>): (i: nat)
    ensures i <= |s|
    ensures forall j :: 0 <= j < i ==> f.length < s[j].length
    ensures i < |s| ==> s[i].length <= f.length
  {
    if s == [] || s[0].length <= f.length then 0 else 1 + LongerPrefix(f, s[1..])
  }

  /**
   * Where the insertion puts `f`: right after the leading files that are
   * strictly longer than it, with nothing else moved.
   */
  lemma {:induction false} InsertByLengthPosition(f: FileRec, s: seq<FileRec>)
    requires LongestFirst(s)
    ensures InsertByLength(f, s) == s[..LongerPrefix(f, s)] + [f] + s[LongerPrefix(f, s)..]
  {
    if s == [] || s[0].length <= f.length {
      assert s[..0] == [] && s[0..] == s;
    } else {
      var tail := s[1..];
      InsertByLengthPosition(f, tail);
      SplitAfterHead(s, f, LongerPrefix(f, tail));
    }
  }

  /** Putting a head back in front of a split tail splits the whole one place further on. */
  lemma SplitAfterHead(s: seq<FileRec>, f: FileRec, k: nat)
    requires 0 < |s| && k < |s|
    ensures [s[0]] + (s[1..][..k] + [f] + s[1..][k..]) == s[..k + 1] + [f] + s[k + 1..]
  {
    assert s[..k + 1] == [s[0]] + s[1..][..k];
    assert s[k + 1..] == s[1..][k..];
  }

  /** The stable descending sort by length that `sort((a, b) => b.length - a.length)` performs. */
  function SortByLength(files: seq<FileRec>): (r: seq<FileRec>)
    ensures LongestFirst(r)
    ensures multiset(r) == multiset(files)
    ensures |r| == |files|
  {
    if files == [] then []
    else
      assert multiset(files) == multiset{files[0]} + multiset(files[1..]) by {
        assert files == [files[0]] + files[1..];
      }
      InsertByLength(files[0], SortByLength(files[1..]))
  }

  /** The selection at lines 78-82: the head of the sorted media files, else the head of all files sorted. */
  function SelectFile(files: seq<FileRec>): (f: FileRec)
    requires |files| > 0
    ensures f in files
  {
    var media := SortByLength(MediaFiles(files));
    if |media| > 0 then
      assert media[0] in multiset(MediaFiles(files));
      media[0]
    else
      var all := SortByLength(files);
      assert all[0] in multiset(files);
      all[0]
  }

  /** `files[k]` is the earliest file of maximal length. */
  ghost predicate IsFirstLongest(files: seq<FileRec>, k: int)
  {
    && 0 <= k < |files|
    && (forall j :: 0 <= j < |files| ==> files[j].length <= files[k].length)
    && (forall j :: 0 <= j < k ==> files[j].length < files[k].length)
  }

  /** `files[k]` is the earliest media file of maximal length among the media files. */
  ghost predicate IsFirstLongestMedia(files: seq<FileRec>, k: int)
  {
    && 0 <= k < |files|
    && IsMediaName(files[k].name)
    && (forall j :: 0 <= j < |files| && IsMediaName(files[j].name) ==> files[j].length <= files[k].length)
    && (forall j :: 0 <= j < k && IsMediaName(files[j].name) ==> files[j].length < files[k].length)
  }

  /** One step of the sort seen from its head: the first file stays in front unless the rest's head is longer. */
  lemma SortHeadStep(files: seq<FileRec>)
    requires |files| > 1
    ensures var h := SortByLength(files[1..])[0];
      SortByLength(files)[0] == if h.length <= files[0].length then files[0] else h
  {
  }

  /** Where the earliest longest file of `files` is, given that of `files[1..]`. */
  lemma FirstLongestCons(files: seq<FileRec>, k: int)
    requires |files| > 1 && IsFirstLongest(files[1..], k)
    ensures files[k + 1] == files[1..][k]
    ensures files[k + 1].length <= files[0].length ==> IsFirstLongest(files, 0)
    ensures files[0].length < files[k + 1].length ==> IsFirstLongest(files, k + 1)
  {
    var rest := files[1..];
    forall j | 1 <= j < |files| ensures files[j].length <= rest[k].length {
      assert files[j] == rest[j - 1];
    }
    forall j | 1 <= j < k + 1 ensures files[j].length < rest[k].length {
      assert files[j] == rest[j - 1];
    }
  }

  /** The head of the stable sort is the earliest longest file. */
  lemma {:induction false} SortedHeadIsFirstLongest(files: seq<FileRec>)
    requires |files| > 0
    ensures exists k :: IsFirstLongest(files, k) && SortByLength(files)[0] == files[k]
  {
    if |files| == 1 {
      assert IsFirstLongest(files, 0);
    } else {
      SortedHeadIsFirstLongest(files[1..]);
      var k :| IsFirstLongest(files[1..], k) && SortByLength(files[1..])[0] == files[1..][k];
      SortHeadStep(files);
      FirstLongestCons(files, k);
      if files[k + 1].length <= files[0].length {
        assert SortByLength(files)[0] == files[0];
      } else {
        assert SortByLength(files)[0] == files[k + 1];
      }
    }
  }

  /** The media filter seen one file at a time. */
  lemma MediaFilesStep(files: seq<FileRec>)
    requires |files| > 0
    ensures MediaFiles(files) ==
      if IsMediaName(files[0].name) then [files[0]] + MediaFiles(files[1..]) else MediaFiles(files[1..])
  {
  }

  /** Where the earliest longest media file of `files` is, given that of `files[1..]`. */
  lemma FirstLongestMediaCons(files: seq<FileRec>, k: int)
    requires |files| > 1 && IsFirstLongestMedia(files[1..], k)
    ensures files[k + 1] == files[1..][k]
    ensures !IsMediaName(files[0].name) ==> IsFirstLongestMedia(files, k + 1)
    ensures IsMediaName(files[0].name) && files[k + 1].length <= files[0].length ==> IsFirstLongestMedia(files, 0)
    ensures files[0].length < files[k + 1].length ==> IsFirstLongestMedia(files, k + 1)
  {
    var rest := files[1..];
    forall j | 1 <= j < |files| && IsMediaName(files[j].name) ensures files[j].length <= rest[k].length {
      assert files[j] == rest[j - 1];
    }
    forall j | 1 <= j < k + 1 && IsMediaName(files[j].name) ensures files[j].length < rest[k].length {
      assert files[j] == rest[j - 1];
    }
  }

  /** A media file followed by no other media file is the earliest longest one. */
  lemma OnlyMediaHead(files: seq<FileRec>)
    requires |files| > 0 && IsMediaName(files[0].name)
    requires forall i :: 1 <= i < |files| ==> !IsMediaName(files[i].name)
    ensures MediaFiles(files[1..]) == []
    ensures IsFirstLongestMedia(files, 0)
  {
    var rest := files[1..];
    forall x | x in rest ensures !IsMediaName(x.name) {
      var i :| 0 <= i < |rest| && rest[i] == x;
      assert files[i + 1] == x;
    }
    if MediaFiles(rest) != [] {
      assert MediaFiles(rest)[0] in MediaFiles(rest);
    }
  }

  /** The head of the sorted media files is the earliest longest media file. */
  lemma {:induction false} SortedMediaHeadIsFirstLongestMedia(files: seq<FileRec>)
    requires exists i :: 0 <= i < |files| && IsMediaName(files[i].name)
    ensures |SortByLength(MediaFiles(files))| > 0
    ensures exists k :: IsFirstLongestMedia(files, k) && SortByLength(MediaFiles(files))[0] == files[k]
  {
    var rest := files[1..];
    MediaFilesStep(files);
    var i :| 0 <= i < |files| && IsMediaName(files[i].name);
    if forall j :: 1 <= j < |files| ==> !IsMediaName(files[j].name) {
      assert i == 0;
      OnlyMediaHead(files);
      assert MediaFiles(files) == [files[0]];
      assert SortByLength(MediaFiles(files))[0] == files[0];
    } else {
      var j :| 1 <= j < |files| && IsMediaName(files[j].name);
      assert IsMediaName(rest[j - 1].name);
      SortedMediaHeadIsFirstLongestMedia(rest);
      var k :| IsFirstLongestMedia(rest, k) && SortByLength(MediaFiles(rest))[0] == rest[k];
      FirstLongestMediaCons(files, k);
      if !IsMediaName(files[0].name) {
        assert SortByLength(MediaFiles(files))[0] == files[k + 1];
      } else {
        var media := MediaFiles(files);
        assert media[1..] == MediaFiles(rest);
        SortHeadStep(media);
        if files[k + 1].length <= files[0].length {
          assert SortByLength(media)[0] == files[0];
        } else {
          assert SortByLength(media)[0] == files[k + 1];
        }
      }
    }
  }

  /** When some name matches, the selection is the earliest longest media file. */
  lemma SelectPrefersMedia(files: seq<FileRec>)
    requires |files| > 0
    requires exists i :: 0 <= i < |files| && IsMediaName(files[i].name)
    ensures IsMediaName(SelectFile(files).name)
    ensures exists k :: IsFirstLongestMedia(files, k) && SelectFile(files) == files[k]
  {
    SortedMediaHeadIsFirstLongestMedia(files);
  }

  /** When no name matches, the selection is the earliest longest file overall. */
  lemma SelectFallsBackToLongest(files: seq<FileRec>)
    requires |files| > 0
    requires forall i :: 0 <= i < |files| ==> !IsMediaName(files[i].name)
    ensures exists k :: IsFirstLongest(files, k) && SelectFile(files) == files[k]
  {
    SortedHeadIsFirstLongest(files);
  }
}
