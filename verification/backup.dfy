/** The retention rule of scripts/backup.mjs: the iCloud copy of a backup
    is named `backup_<projectName>_<dateStamp>.zip`, and afterwards only the
    five newest files of that form are kept in the backup folder. The clock
    and the folder listing are parameters. A file's modification time
    stands in as an integer: the sort compares times only by their order
    (`b.time - a.time`), and an integer keeps that order. */
module Backup {
  import opened Text
  import opened Naming
  import opened IsoDate

  /** `projectName`: the package name with every character outside
      `[a-zA-Z0-9-_]` deleted. */
  function BackupProjectName(name: Option<string>): (r: string)
    ensures IsSafeName(r)
    ensures name.Some? && IsSafeName(name.value) && name.value != [] ==> r == name.value
  {
    DropUnsafeKeepsSafe(NameOrDefault(name));
    DropUnsafe(NameOrDefault(name))
  }

  /** `s.replace(/[:T]/g, "-")`. */
  function DashColonsAndT(s: string): (r: string)
    ensures |r| == |s| && ':' !in r && 'T' !in r
    ensures forall k :: 0 <= k < |s| ==> r[k] == (if s[k] == ':' || s[k] == 'T' then '-' else s[k])
  {
    if s == [] then ""
    else
      var r := [if s[0] == ':' || s[0] == 'T' then '-' else s[0]] + DashColonsAndT(s[1..]);
      assert forall k :: 1 <= k < |s| ==> r[k] == DashColonsAndT(s[1..])[k - 1];
      r
  }

  /** `dateStamp`: colons and the `T` become dashes, the fraction of a
      second and the zone are cut off at the dot. */
  function DateStamp(iso: string): (r: string)
    ensures ':' !in r && 'T' !in r && '.' !in r
  {
    var d := DashColonsAndT(iso);
    var r := BeforeFirst(d, '.');
    assert forall k :: 0 <= k < |r| ==> r[k] == d[k];
    r
  }

  /** Dashing distributes over concatenation. */
  lemma {:induction false} DashAppend(a: string, b: string)
    ensures DashColonsAndT(a + b) == DashColonsAndT(a) + DashColonsAndT(b)
  {
    if a == [] {
      assert a + b == b;
    } else {
      assert (a + b)[0] == a[0] && (a + b)[1..] == a[1..] + b;
      DashAppend(a[1..], b);
      ConcatAssoc(DashColonsAndT([a[0]]), DashColonsAndT(a[1..]), DashColonsAndT(b));
    }
  }

  /** One more piece: what dashing makes of `acc + part`. */
  lemma DashSnoc(acc: string, part: string, done: string, out: string)
    requires DashColonsAndT(acc) == done && DashColonsAndT(part) == out
    ensures DashColonsAndT(acc + part) == done + out
  {
    DashAppend(acc, part);
  }

  /** Digits are left alone. */
  lemma DashDigits(s: string, n: nat)
    requires Digits(s, n)
    ensures DashColonsAndT(s) == s
  {
    assert forall k :: 0 <= k < n ==> s[k] != ':' && s[k] != 'T';
  }

  /** Dashing a real ISO string turns its `T` and colons into dashes. */
  lemma DashIso(y: string, mo: string, d: string, h: string, mi: string, s: string, ms: string)
    requires IsoPieces(y, mo, d, h, mi, s, ms)
    ensures DashColonsAndT(Iso(y, mo, d, h, mi, s, ms))
         == y + "-" + mo + "-" + d + "-" + h + "-" + mi + "-" + s + "." + ms + "Z"
  {
    DashDigits(y, 4);
    DashDigits(mo, 2);
    DashDigits(d, 2);
    DashDigits(h, 2);
    DashDigits(mi, 2);
    DashDigits(s, 2);
    DashDigits(ms, 3);
    assert DashColonsAndT("-") == "-" && DashColonsAndT("T") == "-" && DashColonsAndT(":") == "-";
    assert DashColonsAndT(".") == "." && DashColonsAndT("Z") == "Z";
    var a1, k1 := y + "-", y + "-";
    DashSnoc(y, "-", y, "-");
    var a2, k2 := a1 + mo, k1 + mo;
    DashSnoc(a1, mo, k1, mo);
    var a3, k3 := a2 + "-", k2 + "-";
    DashSnoc(a2, "-", k2, "-");
    var a4, k4 := a3 + d, k3 + d;
    DashSnoc(a3, d, k3, d);
    var a5, k5 := a4 + "T", k4 + "-";
    DashSnoc(a4, "T", k4, "-");
    var a6, k6 := a5 + h, k5 + h;
    DashSnoc(a5, h, k5, h);
    var a7, k7 := a6 + ":", k6 + "-";
    DashSnoc(a6, ":", k6, "-");
    var a8, k8 := a7 + mi, k7 + mi;
    DashSnoc(a7, mi, k7, mi);
    var a9, k9 := a8 + ":", k8 + "-";
    DashSnoc(a8, ":", k8, "-");
    var a10, k10 := a9 + s, k9 + s;
    DashSnoc(a9, s, k9, s);
    var a11, k11 := a10 + ".", k10 + ".";
    DashSnoc(a10, ".", k10, ".");
    var a12, k12 := a11 + ms, k11 + ms;
    DashSnoc(a11, ms, k11, ms);
    DashSnoc(a12, "Z", k12, "Z");
  }

  /** The date stamp of a real ISO string is `YYYY-MM-DD-HH-mm-ss`. */
  lemma DateStampOfIso(y: string, mo: string, d: string, h: string, mi: string, s: string, ms: string)
    requires IsoPieces(y, mo, d, h, mi, s, ms)
    ensures DateStamp(Iso(y, mo, d, h, mi, s, ms)) == y + "-" + mo + "-" + d + "-" + h + "-" + mi + "-" + s
  {
    DashIso(y, mo, d, h, mi, s, ms);
    var pre := y + "-" + mo + "-" + d + "-" + h + "-" + mi + "-" + s;
    assert |pre| == 19;
    assert forall k :: 0 <= k < 19 ==> pre[k] == '-' || IsDigit(pre[k]);
    assert pre + "." + ms + "Z" == pre + ['.'] + (ms + "Z");
    BeforeFirstAt(pre, '.', ms + "Z");
  }

  /** `backup_${projectName}_`: the prefix of every retained backup. */
  function BackupPrefix(projectName: string): string {
    "backup_" + projectName + "_"
  }

  /** `icloudZipName`. */
  function CopyName(projectName: string, iso: string): string {
    BackupPrefix(projectName) + DateStamp(iso) + ".zip"
  }

  /** The filter of line 49: the files the rule may delete. */
  predicate IsCandidate(projectName: string, f: string) {
    StartsWith(f, BackupPrefix(projectName)) && EndsWith(f, ".zip")
  }

  /** The freshly copied backup is itself a candidate. */
  lemma CopyIsCandidate(projectName: string, iso: string)
    ensures IsCandidate(projectName, CopyName(projectName, iso))
  {
    var pre := BackupPrefix(projectName);
    var f := CopyName(projectName, iso);
    assert f[..|pre|] == pre;
    assert f[|f| - 4..] == ".zip";
  }

  /** A file name and its modification time. */
  datatype Entry = Entry(name: string, time: int)

  /** The candidates of a listing, in listing order, with their times. */
  function Candidates(projectName: string, listing: seq<string>, mtime: map<string, int>): (r: seq<Entry>)
    requires forall k :: 0 <= k < |listing| ==> listing[k] in mtime
    ensures |r| <= |listing|
    ensures forall k :: 0 <= k < |r| ==>
              IsCandidate(projectName, r[k].name) && r[k].name in listing && r[k].time == mtime[r[k].name]
  {
    if listing == [] then []
    else
      var rest := Candidates(projectName, listing[1..], mtime);
      if IsCandidate(projectName, listing[0]) then [Entry(listing[0], mtime[listing[0]])] + rest
      else rest
  }

  /** Every candidate of the listing is among the entries. */
  lemma {:induction false} CandidatesComplete(projectName: string, listing: seq<string>,
                                              mtime: map<string, int>, f: string)
    requires forall k :: 0 <= k < |listing| ==> listing[k] in mtime
    requires f in listing && IsCandidate(projectName, f)
    ensures exists k :: 0 <= k < |Candidates(projectName, listing, mtime)|
                        && Candidates(projectName, listing, mtime)[k].name == f
  {
    var r := Candidates(projectName, listing, mtime);
    if listing[0] == f {
      assert r[0].name == f;
    } else {
      assert f in listing[1..];
      CandidatesComplete(projectName, listing[1..], mtime, f);
      var rest := Candidates(projectName, listing[1..], mtime);
      var k :| 0 <= k < |rest| && rest[k].name == f;
      CandidatesLater(projectName, listing, mtime, k);
    }
  }

  /** An entry of the rest of the listing is an entry of the whole. */
  lemma CandidatesLater(projectName: string, listing: seq<string>, mtime: map<string, int>, k: nat)
    requires forall k :: 0 <= k < |listing| ==> listing[k] in mtime
    requires listing != [] && k < |Candidates(projectName, listing[1..], mtime)|
    ensures var r := Candidates(projectName, listing, mtime);
      var d := if IsCandidate(projectName, listing[0]) then 1 else 0;
      k + d < |r| && r[k + d] == Candidates(projectName, listing[1..], mtime)[k]
  {
  }

  /** Newest first. */
  predicate NewestFirst(es: seq<Entry>) {
    forall i, j :: 0 <= i < j < |es| ==> es[i].time >= es[j].time
  }

  /** Inserting `e` into a newest-first list after every entry at least as
      new: the step of a stable sort by `b.time - a.time`. */
  function Insert(es: seq<Entry>, e: Entry): (r: seq<Entry>)
    ensures multiset(r) == multiset(es) + multiset{e}
  {
    if es == [] then [e]
    else if es[0].time >= e.time then
      assert es == [es[0]] + es[1..];
      [es[0]] + Insert(es[1..], e)
    else [e] + es
  }

  /** No entry is newer than `t`. */
  predicate NotAfter(es: seq<Entry>, t: int) {
    forall k :: 0 <= k < |es| ==> es[k].time <= t
  }

  /** Insertion keeps a list newest first. */
  lemma {:induction false} InsertNewestFirst(es: seq<Entry>, e: Entry)
    requires NewestFirst(es)
    ensures NewestFirst(Insert(es, e))
  {
    if es != [] && es[0].time >= e.time {
      InsertNewestFirst(es[1..], e);
      InsertNotAfter(es[1..], e, es[0].time);
      ConsNewestFirst(es[0], Insert(es[1..], e));
    }
  }

  /** Insertion of an entry no newer than `t` into a list no newer than
      `t`. */
  lemma {:induction false} InsertNotAfter(es: seq<Entry>, e: Entry, t: int)
    requires NotAfter(es, t) && e.time <= t
    ensures NotAfter(Insert(es, e), t)
  {
    if es != [] && es[0].time >= e.time {
      InsertNotAfter(es[1..], e, t);
    }
  }

  /** An entry at least as new as a newest-first list goes in front. */
  lemma ConsNewestFirst(x: Entry, rest: seq<Entry>)
    requires NewestFirst(rest) && NotAfter(rest, x.time)
    ensures NewestFirst([x] + rest)
  {
    var r := [x] + rest;
    forall i, j | 0 <= i < j < |r| ensures r[i].time >= r[j].time {
      assert r[j] == rest[j - 1];
      if i > 0 {
        assert r[i] == rest[i - 1];
      }
    }
  }

  /** `.sort((a, b) => b.time - a.time)`: stable, newest first. */
  function SortNewestFirst(es: seq<Entry>): (r: seq<Entry>)
    ensures multiset(r) == multiset(es) && NewestFirst(r)
  {
    if es == [] then []
    else
      var init := es[..|es| - 1];
      assert es == init + [es[|es| - 1]];
      InsertNewestFirst(SortNewestFirst(init), es[|es| - 1]);
      Insert(SortNewestFirst(init), es[|es| - 1])
  }

  /** The entries of `es` whose time is `t`, in order. */
  function WithTime(es: seq<Entry>, t: int): (r: seq<Entry>)
    ensures |r| <= |es|
  {
    if es == [] then []
    else (if es[0].time == t then [es[0]] else []) + WithTime(es[1..], t)
  }

  lemma {:induction false} WithTimeAppend(a: seq<Entry>, b: seq<Entry>, t: int)
    ensures WithTime(a + b, t) == WithTime(a, t) + WithTime(b, t)
  {
    if a != [] {
      assert (a + b)[1..] == a[1..] + b;
      WithTimeAppend(a[1..], b, t);
    } else {
      assert a + b == b;
    }
  }

  /** Insertion puts `e` after the entries of its own time. */
  lemma {:induction false} InsertStable(es: seq<Entry>, e: Entry, t: int)
    requires NewestFirst(es)
    ensures WithTime(Insert(es, e), t) == WithTime(es, t) + WithTime([e], t)
  {
    if es == [] {
    } else if es[0].time >= e.time {
      InsertStable(es[1..], e, t);
      InsertStableBehind(es, e, t);
    } else {
      InsertStableFront(es, e, t);
    }
  }

  /** The step where `e` goes further back. */
  lemma InsertStableBehind(es: seq<Entry>, e: Entry, t: int)
    requires es != [] && es[0].time >= e.time
    requires WithTime(Insert(es[1..], e), t) == WithTime(es[1..], t) + WithTime([e], t)
    ensures WithTime(Insert(es, e), t) == WithTime(es, t) + WithTime([e], t)
  {
    WithTimeAppend([es[0]], Insert(es[1..], e), t);
    WithTimeCons(es, t);
    ConcatAssoc(WithTime([es[0]], t), WithTime(es[1..], t), WithTime([e], t));
  }

  /** The first entry and the rest. */
  lemma WithTimeCons(es: seq<Entry>, t: int)
    requires es != []
    ensures WithTime(es, t) == WithTime([es[0]], t) + WithTime(es[1..], t)
  {
    assert es == [es[0]] + es[1..];
    WithTimeAppend([es[0]], es[1..], t);
  }

  /** The step where `e` goes in front of entries all older than it. */
  lemma InsertStableFront(es: seq<Entry>, e: Entry, t: int)
    requires NewestFirst(es) && es != [] && es[0].time < e.time
    ensures WithTime(Insert(es, e), t) == WithTime(es, t) + WithTime([e], t)
  {
    WithTimeAppend([e], es, t);
    if e.time == t {
      NoneWithTime(es, t);
    }
  }

  /** In a newest-first list that starts older than `t`, nothing has
      time `t`. */
  lemma {:induction false} NoneWithTime(es: seq<Entry>, t: int)
    requires NewestFirst(es) && (es != [] ==> es[0].time < t)
    ensures WithTime(es, t) == []
  {
    if es != [] {
      assert es[1..] != [] ==> es[1].time <= es[0].time;
      NoneWithTime(es[1..], t);
    }
  }

  /** The sort is stable: entries with the same time keep their order. */
  lemma {:induction false} SortStable(es: seq<Entry>, t: int)
    ensures WithTime(SortNewestFirst(es), t) == WithTime(es, t)
  {
    if es != [] {
      var init := es[..|es| - 1];
      var last := es[|es| - 1];
      assert es == init + [last];
      SortStable(init, t);
      InsertStable(SortNewestFirst(init), last, t);
      WithTimeAppend(init, [last], t);
    }
  }

  /** The candidates, newest first. */
  function Ranked(projectName: string, listing: seq<string>, mtime: map<string, int>): (r: seq<Entry>)
    requires forall k :: 0 <= k < |listing| ==> listing[k] in mtime
  {
    SortNewestFirst(Candidates(projectName, listing, mtime))
  }

  /** The names of some entries. */
  function Names(es: seq<Entry>): (r: set<string>)
    ensures forall k :: 0 <= k < |es| ==> es[k].name in r
    ensures forall n :: n in r ==> exists k :: 0 <= k < |es| && es[k].name == n
  {
    set k | 0 <= k < |es| :: es[k].name
  }

  lemma NamesSnoc(es: seq<Entry>, e: Entry)
    ensures Names(es + [e]) == Names(es) + {e.name}
  {
    var l := Names(es + [e]);
    var r := Names(es) + {e.name};
    forall n | n in l ensures n in r {
      var k :| 0 <= k < |es + [e]| && (es + [e])[k].name == n;
      if k < |es| {
        assert es[k].name == n;
      }
    }
    forall n | n in r ensures n in l {
      if n != e.name {
        var k :| 0 <= k < |es| && es[k].name == n;
        assert (es + [e])[k].name == n;
      } else {
        assert (es + [e])[|es|].name == n;
      }
    }
  }

  /** Deleting one more ranked entry. */
  lemma PruneStep(m: map<string, int>, ranked: seq<Entry>, i: nat)
    requires 5 <= i < |ranked|
    ensures (m - Names(ranked[5..i])) - {ranked[i].name} == m - Names(ranked[5..i + 1])
  {
    assert ranked[5..i + 1] == ranked[5..i] + [ranked[i]];
    NamesSnoc(ranked[5..i], ranked[i]);
  }

  /** The files the rule deletes: the ranked candidates after the fifth,
      if there are more than five. */
  function Doomed(projectName: string, listing: seq<string>, mtime: map<string, int>): (r: set<string>)
    requires forall k :: 0 <= k < |listing| ==> listing[k] in mtime
  {
    var ranked := Ranked(projectName, listing, mtime);
    if |ranked| > 5 then Names(ranked[5..]) else {}
  }

  /** A backup folder: file names and their modification times. */
  class Folder {
    var files: map<string, int>

    constructor (files: map<string, int>)
      ensures this.files == files
    {
      this.files := files;
    }

    /** Lines 48-57: list, rank, and unlink every candidate after the
        fifth. `listing` is what `readdirSync` returns: each file once. */
    method Prune(projectName: string, listing: seq<string>)
      requires forall k :: 0 <= k < |listing| ==> listing[k] in files
      modifies this
      ensures files == old(files) - Doomed(projectName, listing, old(files))
    {
      var ranked := SortNewestFirst(Candidates(projectName, listing, files));
      if |ranked| > 5 {
        var i := 5;
        while i < |ranked|
          invariant 5 <= i <= |ranked|
          invariant files == old(files) - Names(ranked[5..i])
        {
          PruneStep(old(files), ranked, i);
          files := files - {ranked[i].name};
          i := i + 1;
        }
        assert ranked[5..i] == ranked[5..];
      }
    }
  }

  /** Only candidates are ever deleted, and only files of the listing. */
  lemma DoomedAreCandidates(projectName: string, listing: seq<string>, mtime: map<string, int>)
    requires forall k :: 0 <= k < |listing| ==> listing[k] in mtime
    ensures forall g :: g in Doomed(projectName, listing, mtime) ==>
              IsCandidate(projectName, g) && g in listing
  {
    var c := Candidates(projectName, listing, mtime);
    var ranked := Ranked(projectName, listing, mtime);
    forall g | g in Doomed(projectName, listing, mtime)
      ensures IsCandidate(projectName, g) && g in listing
    {
      var k :| 0 <= k < |ranked[5..]| && ranked[5..][k].name == g;
      assert ranked[k + 5] in multiset(c);
    }
  }

  /** Files that are not candidates are never deleted. */
  lemma NonCandidatesKept(projectName: string, listing: seq<string>, mtime: map<string, int>, f: string)
    requires forall k :: 0 <= k < |listing| ==> listing[k] in mtime
    requires !IsCandidate(projectName, f)
    ensures f !in Doomed(projectName, listing, mtime)
  {
    DoomedAreCandidates(projectName, listing, mtime);
  }

  /** No two entries share a name. */
  predicate DistinctNames(es: seq<Entry>) {
    forall i, j :: 0 <= i < j < |es| ==> es[i].name != es[j].name
  }

  /** What `readdirSync` returns: each name once. */
  predicate Distinct(listing: seq<string>) {
    forall i, j :: 0 <= i < j < |listing| ==> listing[i] != listing[j]
  }

  lemma {:induction false} CandidatesDistinct(projectName: string, listing: seq<string>, mtime: map<string, int>)
    requires forall k :: 0 <= k < |listing| ==> listing[k] in mtime
    requires Distinct(listing)
    ensures DistinctNames(Candidates(projectName, listing, mtime))
  {
    if listing != [] {
      var rest := Candidates(projectName, listing[1..], mtime);
      CandidatesDistinct(projectName, listing[1..], mtime);
      forall k | 0 <= k < |rest| ensures rest[k].name != listing[0] {
        var m :| 0 <= m < |listing[1..]| && listing[1..][m] == rest[k].name;
        assert listing[m + 1] == rest[k].name;
      }
    }
  }

  /** Entries that are the same up to order have the same names. */
  lemma SameNames(a: seq<Entry>, b: seq<Entry>)
    requires multiset(a) == multiset(b)
    ensures Names(a) == Names(b)
  {
    forall n | n in Names(a) ensures n in Names(b) {
      var k :| 0 <= k < |a| && a[k].name == n;
      assert a[k] in multiset(b);
      var j :| 0 <= j < |b| && b[j] == a[k];
    }
    forall n | n in Names(b) ensures n in Names(a) {
      var k :| 0 <= k < |b| && b[k].name == n;
      assert b[k] in multiset(a);
      var j :| 0 <= j < |a| && a[j] == b[k];
    }
  }

  /** Insertion of an entry with a new name keeps names distinct. */
  lemma {:induction false} InsertDistinct(es: seq<Entry>, e: Entry)
    requires DistinctNames(es) && forall k :: 0 <= k < |es| ==> es[k].name != e.name
    ensures DistinctNames(Insert(es, e))
  {
    if es != [] && es[0].time >= e.time {
      InsertDistinct(es[1..], e);
      InsertNameAbsent(es[1..], e, es[0].name);
      ConsDistinct(es[0], Insert(es[1..], e));
    } else if es != [] {
      ConsDistinct(e, es);
    }
  }

  /** No entry is named `n`. */
  predicate NameAbsent(es: seq<Entry>, n: string) {
    forall k :: 0 <= k < |es| ==> es[k].name != n
  }

  /** Inserting an entry not named `n` keeps `n` absent. */
  lemma {:induction false} InsertNameAbsent(es: seq<Entry>, e: Entry, n: string)
    requires NameAbsent(es, n) && e.name != n
    ensures NameAbsent(Insert(es, e), n)
  {
    if es != [] && es[0].time >= e.time {
      InsertNameAbsent(es[1..], e, n);
    }
  }

  /** An entry whose name the list lacks goes in front. */
  lemma ConsDistinct(x: Entry, rest: seq<Entry>)
    requires DistinctNames(rest) && NameAbsent(rest, x.name)
    ensures DistinctNames([x] + rest)
  {
    var r := [x] + rest;
    forall i, j | 0 <= i < j < |r| ensures r[i].name != r[j].name {
      assert r[j] == rest[j - 1];
      if i > 0 {
        assert r[i] == rest[i - 1];
      }
    }
  }

  /** Sorting keeps names distinct. */
  lemma {:induction false} SortDistinct(es: seq<Entry>)
    requires DistinctNames(es)
    ensures DistinctNames(SortNewestFirst(es))
  {
    if es != [] {
      var init := es[..|es| - 1];
      var last := es[|es| - 1];
      assert es == init + [last];
      SortDistinct(init);
      var sorted := SortNewestFirst(init);
      forall k | 0 <= k < |sorted| ensures sorted[k].name != last.name {
        assert sorted[k] in multiset(init);
        var m :| 0 <= m < |init| && init[m] == sorted[k];
        assert es[m] == init[m];
      }
      InsertDistinct(sorted, last);
    }
  }

  /** A list of entries with distinct names has as many names as entries. */
  lemma {:induction false} NamesCount(es: seq<Entry>)
    requires DistinctNames(es)
    ensures |Names(es)| == |es|
  {
    if es != [] {
      var init := es[..|es| - 1];
      var last := es[|es| - 1];
      assert es == init + [last];
      NamesSnoc(init, last);
      NamesCount(init);
    }
  }

  /** The candidates of the listing that the rule leaves in place. */
  function Kept(projectName: string, listing: seq<string>, mtime: map<string, int>): (r: set<string>)
    requires forall k :: 0 <= k < |listing| ==> listing[k] in mtime
    ensures forall f :: f in r <==>
              f in listing && IsCandidate(projectName, f) && f !in Doomed(projectName, listing, mtime)
  {
    set f | f in listing && IsCandidate(projectName, f) && f !in Doomed(projectName, listing, mtime)
  }

  /** The names of the candidates are the candidate files of the
      listing. */
  lemma CandidateNames(projectName: string, listing: seq<string>, mtime: map<string, int>)
    requires forall k :: 0 <= k < |listing| ==> listing[k] in mtime
    ensures forall f :: f in Names(Candidates(projectName, listing, mtime)) <==>
              f in listing && IsCandidate(projectName, f)
  {
    forall f | f in listing && IsCandidate(projectName, f)
      ensures f in Names(Candidates(projectName, listing, mtime))
    {
      CandidatesComplete(projectName, listing, mtime, f);
    }
  }

  /** Cutting a list with distinct names after `n` entries splits its
      names in two. */
  lemma SplitNames(es: seq<Entry>, n: nat)
    requires DistinctNames(es) && n <= |es|
    ensures Names(es) - Names(es[n..]) == Names(es[..n])
  {
    forall f | f in Names(es[..n]) ensures f in Names(es) && f !in Names(es[n..]) {
      var k :| 0 <= k < n && es[..n][k].name == f;
      assert es[k].name == f;
      forall j | 0 <= j < |es[n..]| ensures es[n..][j].name != f {
        assert es[n..][j] == es[j + n];
      }
    }
    forall f | f in Names(es) ensures f in Names(es[..n]) || f in Names(es[n..]) {
      var k :| 0 <= k < |es| && es[k].name == f;
      if k >= n {
        assert es[n..][k - n].name == f;
      } else {
        assert es[..n][k].name == f;
      }
    }
  }

  /** With at most five candidates nothing is deleted; with more, exactly
      the five newest candidates are kept. */
  lemma KeepsFiveNewest(projectName: string, listing: seq<string>, mtime: map<string, int>)
    requires forall k :: 0 <= k < |listing| ==> listing[k] in mtime
    requires Distinct(listing)
    ensures var ranked := Ranked(projectName, listing, mtime);
      && (|ranked| <= 5 ==> Doomed(projectName, listing, mtime) == {})
      && (|ranked| > 5 ==> Kept(projectName, listing, mtime) == Names(ranked[..5])
                           && |Kept(projectName, listing, mtime)| == 5)
  {
    var c := Candidates(projectName, listing, mtime);
    var ranked := Ranked(projectName, listing, mtime);
    if |ranked| > 5 {
      CandidatesDistinct(projectName, listing, mtime);
      SortDistinct(c);
      SameNames(c, ranked);
      CandidateNames(projectName, listing, mtime);
      assert Kept(projectName, listing, mtime) == Names(ranked) - Names(ranked[5..]);
      SplitNames(ranked, 5);
      NamesCount(ranked[..5]);
    }
  }

  /** No deleted file is newer than a kept candidate. */
  lemma DeletedNotNewer(projectName: string, listing: seq<string>, mtime: map<string, int>,
                        kept: string, gone: string)
    requires forall k :: 0 <= k < |listing| ==> listing[k] in mtime
    requires IsCandidate(projectName, kept) && kept in listing
    requires kept !in Doomed(projectName, listing, mtime)
    requires gone in Doomed(projectName, listing, mtime)
    ensures gone in mtime && mtime[gone] <= mtime[kept]
  {
    DoomedAreCandidates(projectName, listing, mtime);
    var c := Candidates(projectName, listing, mtime);
    var ranked := Ranked(projectName, listing, mtime);
    var j :| 0 <= j < |ranked[5..]| && ranked[5..][j].name == gone;
    assert ranked[j + 5] in multiset(c);
    CandidatesComplete(projectName, listing, mtime, kept);
    var m :| 0 <= m < |c| && c[m].name == kept;
    assert c[m] in multiset(ranked);
    var i :| 0 <= i < |ranked| && ranked[i] == c[m];
    LateNamesDoomed(ranked, i);
  }

  /** An entry after the fifth has its name among those after the fifth. */
  lemma LateNamesDoomed(es: seq<Entry>, i: nat)
    requires i < |es|
    ensures 5 <= i ==> es[i].name in Names(es[5..])
  {
    if 5 <= i {
      assert es[5..][i - 5] == es[i];
    }
  }
}
