/** The insertion-ordered dictionary from titles to jobs that the table operations build
    and change (`{job.title: job for job in ...}`, `dict.update`, `del`). It is held as
    the sequence of its entries in insertion order; a dictionary never holds a title
    twice, and every operation here keeps it so. */
module Titled {
  import opened Results
  import opened CronJob
  import Text

  // ---------------------------------------------------------------------------
  // Titles
  // ---------------------------------------------------------------------------

  /** The titles of a list of jobs, in order. */
  function Titles(s: seq<Job>): (ts: seq<string>)
    ensures |ts| == |s|
    ensures forall i :: 0 <= i < |s| ==> ts[i] == s[i].title
  {
    seq(|s|, k requires 0 <= k < |s| => s[k].title)
  }

  /** No title occurs twice. */
  predicate Distinct(ts: seq<string>)
  {
    forall i, j :: 0 <= i < j < |ts| ==> ts[i] != ts[j]
  }

  /** In a distinct sequence, an entry equals the one at `i` only at `i`. */
  lemma DistinctAt(ts: seq<string>, i: nat, k: nat)
    requires Distinct(ts) && i < |ts| && k < |ts|
    ensures ts[k] == ts[i] <==> k == i
  {
    if k < i {
      assert ts[k] != ts[i];
    } else if i < k {
      assert ts[i] != ts[k];
    }
  }

  /** In a dictionary with distinct titles, an entry has the title of the one at `i`
      only if it is that entry. */
  lemma TitleAt(d: seq<Job>, i: nat, k: nat)
    requires Distinct(Titles(d)) && i < |d| && k < |d|
    ensures d[k].title == d[i].title <==> k == i
  {
    var ts := Titles(d);
    assert ts[k] == d[k].title && ts[i] == d[i].title;
    DistinctAt(ts, i, k);
  }

  /** The titles of a non-empty list are its first title, then those of the rest. */
  lemma TitlesCons(s: seq<Job>)
    requires s != []
    ensures Titles(s) == [s[0].title] + Titles(s[1..])
  {
    assert forall i :: 0 < i < |s| ==> s[1..][i - 1] == s[i];
  }

  /** The titles of a concatenation are the concatenated titles. */
  lemma TitlesAppend(a: seq<Job>, b: seq<Job>)
    ensures Titles(a + b) == Titles(a) + Titles(b)
  {
    assert forall i :: 0 <= i < |a| ==> (a + b)[i] == a[i];
  }

  /** The titles of a non-empty list are those of its front, then its last title. */
  lemma TitlesSnoc(s: seq<Job>)
    requires s != []
    ensures Titles(s) == Titles(s[..|s| - 1]) + [s[|s| - 1].title]
  {
    Text.FrontLast(s);
    TitlesAppend(s[..|s| - 1], [s[|s| - 1]]);
  }

  /** One more title keeps the titles distinct exactly when it is new. */
  lemma DistinctSnoc(ts: seq<string>, t: string)
    ensures Distinct(ts + [t]) <==> Distinct(ts) && t !in ts
  {
    var s := ts + [t];
    assert forall i :: 0 <= i < |ts| ==> s[i] == ts[i];
    if t in ts {
      var i :| 0 <= i < |ts| && ts[i] == t;
      assert s[i] == s[|ts|];
    }
  }

  /** A title in front keeps the titles distinct exactly when it is new. */
  lemma DistinctCons(t: string, ts: seq<string>)
    ensures Distinct([t] + ts) <==> t !in ts && Distinct(ts)
  {
    var s := [t] + ts;
    assert forall i :: 0 <= i < |ts| ==> s[i + 1] == ts[i];
    if t in ts {
      var i :| 0 <= i < |ts| && ts[i] == t;
      assert s[0] == s[i + 1];
    }
  }

  /** `{job.title for job in s}`. */
  function TitleSet(s: seq<Job>): set<string>
  {
    set j | j in s :: j.title
  }

  /** The title set holds exactly the titles. */
  lemma TitleSetMembers(s: seq<Job>)
    ensures forall t :: t in TitleSet(s) <==> t in Titles(s)
  {
    forall t | t in Titles(s) ensures t in TitleSet(s) {
      var i :| 0 <= i < |s| && Titles(s)[i] == t;
      assert s[i] in s;
    }
  }

  /** The title set of a non-empty list is its front's set and its last title. */
  lemma TitleSetSnoc(s: seq<Job>)
    requires s != []
    ensures TitleSet(s) == TitleSet(s[..|s| - 1]) + {s[|s| - 1].title}
  {
    Text.FrontLast(s);
  }

  /** `len({job.title for job in s}) == len(s)` exactly when no title occurs twice; the
      set is never larger than the list. */
  lemma {:induction false} TitleSetSize(s: seq<Job>)
    ensures |TitleSet(s)| <= |s|
    ensures |TitleSet(s)| == |s| <==> Distinct(Titles(s))
  {
    if s != [] {
      var n := |s| - 1;
      var init := s[..n];
      var t := s[n].title;
      TitleSetSize(init);
      TitleSetSnoc(s);
      TitlesSnoc(s);
      DistinctSnoc(Titles(init), t);
      TitleSetMembers(init);
      if t in TitleSet(init) {
        assert TitleSet(s) == TitleSet(init);
        assert !Distinct(Titles(s));
      } else {
        assert |TitleSet(s)| == |TitleSet(init)| + 1;
        assert Distinct(Titles(s)) <==> Distinct(Titles(init));
      }
    }
  }

  // ---------------------------------------------------------------------------
  // Lookup and store
  // ---------------------------------------------------------------------------

  /** The position of the first occurrence of `t`, if any. */
  function Find(ts: seq<string>, t: string): (r: Option<nat>)
    ensures r.None? <==> t !in ts
    ensures r.Some? ==> r.value < |ts| && ts[r.value] == t && t !in ts[..r.value]
  {
    if ts == [] then None
    else if ts[0] == t then Some(0)
    else
      match Find(ts[1..], t)
      case None => None
      case Some(i) =>
        assert ts[..i + 1] == [ts[0]] + ts[1..][..i];
        Some(i + 1)
  }

  /** The first occurrence is the only position with nothing equal before it. */
  lemma FindUnique(ts: seq<string>, t: string, i: nat)
    requires i < |ts| && ts[i] == t && t !in ts[..i]
    ensures Find(ts, t) == Some(i)
  {
    var k := Find(ts, t).value;
    assert forall m :: 0 <= m < i ==> ts[..i][m] == ts[m];
    assert forall m :: 0 <= m < k ==> ts[..k][m] == ts[m];
  }

  /** `d[t]`: the job stored under a title, or `None` (a `KeyError`) when it is absent. */
  function Lookup(d: seq<Job>, t: string): (r: Option<Job>)
    ensures r.None? <==> t !in Titles(d)
    ensures r.Some? ==> r.value in d && r.value.title == t
  {
    match Find(Titles(d), t)
    case None => None
    case Some(i) => Some(d[i])
  }

  /** `d[j.title] = j`: the entry under that title is replaced in place, or the job is
      appended when the title is new. */
  function Put(d: seq<Job>, j: Job): seq<Job>
  {
    match Find(Titles(d), j.title)
    case Some(i) => d[i := j]
    case None => d + [j]
  }

  /** Storing keeps the titles and their order, and adds a new title at the end. */
  lemma PutTitles(d: seq<Job>, j: Job)
    ensures Titles(Put(d, j)) == if j.title in Titles(d) then Titles(d) else Titles(d) + [j.title]
  {
    if j.title !in Titles(d) {
      TitlesAppend(d, [j]);
    }
  }

  /** After storing, the job's title gives the job, and every other title gives what it
      gave before. */
  lemma PutLookup(d: seq<Job>, j: Job, t: string)
    ensures Lookup(Put(d, j), t) == if t == j.title then Some(j) else Lookup(d, t)
  {
    var ts := Titles(d);
    PutTitles(d, j);
    if j.title !in ts {
      if t in ts {
        var i := Find(ts, t).value;
        assert (ts + [j.title])[..i] == ts[..i];
        FindUnique(ts + [j.title], t, i);
      } else if t == j.title {
        assert (ts + [j.title])[..|ts|] == ts;
        FindUnique(ts + [j.title], t, |ts|);
      }
    }
  }

  // ---------------------------------------------------------------------------
  // Building and merging: the comprehension and `update`
  // ---------------------------------------------------------------------------

  /** `d.update(src)`: the jobs of `src` stored one after another, in order. */
  function UpdateAll(d: seq<Job>, src: seq<Job>): seq<Job>
  {
    if src == [] then d else Put(UpdateAll(d, src[..|src| - 1]), src[|src| - 1])
  }

  /** `d.update(src)` in place: each job of `src` is stored in turn. */
  method Update(d: seq<Job>, src: seq<Job>) returns (r: seq<Job>)
    ensures r == UpdateAll(d, src)
  {
    r := d;
    var i := 0;
    while i < |src|
      invariant 0 <= i <= |src|
      invariant r == UpdateAll(d, src[..i])
    {
      assert src[..i + 1][..i] == src[..i];
      r := Put(r, src[i]);
      i := i + 1;
    }
    assert src[..i] == src;
  }

  /** `{job.title: job for job in jobs}`: the jobs stored one after another into an
      empty dictionary. */
  function Collapse(jobs: seq<Job>): seq<Job>
  {
    UpdateAll([], jobs)
  }

  /** The titles in order of first occurrence, each once. */
  function FirstOccurrences(ts: seq<string>): (r: seq<string>)
    ensures Distinct(r)
    ensures forall t :: t in r <==> t in ts
  {
    if ts == [] then []
    else
      var n := |ts| - 1;
      var r := FirstOccurrences(ts[..n]);
      assert ts == ts[..n] + [ts[n]];
      DistinctSnoc(r, ts[n]);
      if ts[n] in ts[..n] then r else r + [ts[n]]
  }

  /** One more title adds it at the end exactly when it is new. */
  lemma FirstOccurrencesSnoc(ts: seq<string>, t: string)
    ensures FirstOccurrences(ts + [t]) ==
      if t in ts then FirstOccurrences(ts) else FirstOccurrences(ts) + [t]
  {
    assert (ts + [t])[..|ts|] == ts;
  }

  /** Distinct titles occur first where they are. */
  lemma {:induction false} FirstOccurrencesOfDistinct(ts: seq<string>)
    requires Distinct(ts)
    ensures FirstOccurrences(ts) == ts
  {
    if ts != [] {
      var n := |ts| - 1;
      FirstOccurrencesOfDistinct(ts[..n]);
      assert ts == ts[..n] + [ts[n]];
      DistinctSnoc(ts[..n], ts[n]);
    }
  }

  /** The last job in `s` with title `t`. */
  function LastWith(s: seq<Job>, t: string): (j: Job)
    requires t in Titles(s)
    ensures j in s && j.title == t
  {
    var n := |s| - 1;
    if s[n].title == t then s[n]
    else
      assert Titles(s) == Titles(s[..n]) + [s[n].title] by {
        assert s == s[..n] + [s[n]];
        TitlesAppend(s[..n], [s[n]]);
      }
      LastWith(s[..n], t)
  }

  /** The titles after `d.update(src)`: `d`'s titles in their order, then the titles new
      to `d` in order of their first occurrence in `src`. The result holds no title
      twice. */
  lemma {:induction false} UpdateAllTitles(d: seq<Job>, src: seq<Job>)
    requires Distinct(Titles(d))
    ensures Titles(UpdateAll(d, src)) == FirstOccurrences(Titles(d) + Titles(src))
  {
    if src == [] {
      assert Titles(d) + Titles(src) == Titles(d);
      FirstOccurrencesOfDistinct(Titles(d));
    } else {
      var n := |src| - 1;
      var init := src[..n];
      var u := UpdateAll(d, init);
      var t := src[n].title;
      assert UpdateAll(d, src) == Put(u, src[n]);
      UpdateAllTitles(d, init);
      PutTitles(u, src[n]);
      TitlesSnoc(src);
      var before := Titles(d) + Titles(init);
      assert Titles(d) + Titles(src) == before + [t];
      FirstOccurrencesSnoc(before, t);
      assert t in Titles(u) <==> t in before;
    }
  }

  /** The job under a title after `d.update(src)`: the last job of `src` with that
      title, or `d`'s job when `src` has none. */
  lemma {:induction false} UpdateAllLookup(d: seq<Job>, src: seq<Job>, t: string)
    ensures Lookup(UpdateAll(d, src), t) ==
      if t in Titles(src) then Some(LastWith(src, t)) else Lookup(d, t)
  {
    if src != [] {
      var n := |src| - 1;
      var init := src[..n];
      UpdateAllLookup(d, init, t);
      PutLookup(UpdateAll(d, init), src[n], t);
      TitlesSnoc(src);
    }
  }

  /** When `src` holds distinct titles that `d` does not hold, `d.update(src)` appends
      `src` to `d` as it is. */
  lemma {:induction false} UpdateAllDisjoint(d: seq<Job>, src: seq<Job>)
    requires Distinct(Titles(src))
    requires forall t :: t in Titles(src) ==> t !in Titles(d)
    ensures UpdateAll(d, src) == d + src
  {
    if src != [] {
      var n := |src| - 1;
      var init := src[..n];
      var x := src[n];
      Text.FrontLast(src);
      TitlesSnoc(src);
      DistinctSnoc(Titles(init), x.title);
      UpdateAllDisjoint(d, init);
      TitlesAppend(d, init);
      assert x.title !in Titles(d + init);
      assert UpdateAll(d, src) == (d + init) + [x];
      assert (d + init) + [x] == d + (init + [x]);
    }
  }

  /** The comprehension keeps each title at its first position with its last job; a
      list without repeated titles is kept as it is. */
  lemma CollapseShape(jobs: seq<Job>, t: string)
    ensures Titles(Collapse(jobs)) == FirstOccurrences(Titles(jobs))
    ensures Lookup(Collapse(jobs), t) == if t in Titles(jobs) then Some(LastWith(jobs, t)) else None
    ensures Distinct(Titles(jobs)) ==> Collapse(jobs) == jobs
  {
    UpdateAllTitles([], jobs);
    assert Titles([]) + Titles(jobs) == Titles(jobs);
    UpdateAllLookup([], jobs, t);
    assert Lookup([], t) == None;
    if Distinct(Titles(jobs)) {
      UpdateAllDisjoint([], jobs);
      assert [] + jobs == jobs;
    }
  }

  // ---------------------------------------------------------------------------
  // Deleting: `del d[name]`
  // ---------------------------------------------------------------------------

  /** The jobs whose titles are not among `names`, in their order. */
  function Without(d: seq<Job>, names: seq<string>): seq<Job>
  {
    if d == [] then []
    else (if d[0].title in names then [] else [d[0]]) + Without(d[1..], names)
  }

  /** A title remains exactly when it was there and is not among `names`; removing keeps
      titles distinct. */
  lemma {:induction false} WithoutTitles(d: seq<Job>, names: seq<string>)
    ensures forall t :: t in Titles(Without(d, names)) <==> t in Titles(d) && t !in names
    ensures Distinct(Titles(d)) ==> Distinct(Titles(Without(d, names)))
  {
    if d != [] {
      var rest := Without(d[1..], names);
      WithoutTitles(d[1..], names);
      TitlesCons(d);
      DistinctCons(d[0].title, Titles(d[1..]));
      if d[0].title in names {
        assert Without(d, names) == rest;
      } else {
        assert Without(d, names) == [d[0]] + rest;
        TitlesCons([d[0]] + rest);
        assert ([d[0]] + rest)[1..] == rest;
        DistinctCons(d[0].title, Titles(rest));
      }
    }
  }

  /** Removing nothing that is there keeps everything. */
  lemma {:induction false} WithoutAbsent(d: seq<Job>, names: seq<string>)
    requires forall k :: 0 <= k < |d| ==> d[k].title !in names
    ensures Without(d, names) == d
  {
    if d != [] {
      WithoutAbsent(d[1..], names);
    }
  }

  /** Removing one name, then more, is removing them all. */
  lemma {:induction false} WithoutWithout(d: seq<Job>, a: seq<string>, b: seq<string>)
    ensures Without(Without(d, a), b) == Without(d, a + b)
  {
    if d != [] {
      WithoutWithout(d[1..], a, b);
      var head := if d[0].title in a then [] else [d[0]];
      if head == [] {
        assert head + Without(d[1..], a) == Without(d[1..], a);
      } else {
        assert (head + Without(d[1..], a))[1..] == Without(d[1..], a);
      }
    }
  }

  /** Removing a title held by the entry at `i` and by no other removes that entry. */
  lemma {:induction false} WithoutOnly(d: seq<Job>, t: string, i: nat)
    requires i < |d|
    requires forall k :: 0 <= k < |d| ==> (d[k].title == t <==> k == i)
    ensures Without(d, [t]) == d[..i] + d[i + 1..]
  {
    var tail := d[1..];
    assert forall k :: 0 <= k < |tail| ==> tail[k] == d[k + 1];
    if i == 0 {
      assert d[0].title in [t];
      WithoutAbsent(tail, [t]);
      assert Without(d, [t]) == [] + tail;
      assert d[..0] + d[1..] == tail;
    } else {
      assert d[0].title !in [t];
      WithoutOnly(tail, t, i - 1);
      assert Without(d, [t]) == [d[0]] + Without(tail, [t]);
      Text.TakeCons(d, i);
      assert d[i + 1..] == tail[i..];
      assert [d[0]] + (tail[..i - 1] + tail[i..]) == ([d[0]] + tail[..i - 1]) + tail[i..];
    }
  }

  /** In a dictionary with distinct titles, the title of the entry at `i` is held by
      that entry alone. */
  lemma OnlyAt(d: seq<Job>, t: string, i: nat)
    requires Distinct(Titles(d))
    requires i < |d| && d[i].title == t
    ensures forall k :: 0 <= k < |d| ==> (d[k].title == t <==> k == i)
  {
    forall k | 0 <= k < |d| ensures d[k].title == d[i].title <==> k == i {
      TitleAt(d, i, k);
    }
  }

  /** `del d[t]` for a title that is present. */
  function Delete(d: seq<Job>, t: string): seq<Job>
    requires t in Titles(d)
  {
    var i := Find(Titles(d), t).value;
    d[..i] + d[i + 1..]
  }

  /** `del d[t]` on a dictionary removes the entry with that title and keeps the others
      in order. */
  lemma DeleteIsWithout(d: seq<Job>, t: string)
    requires Distinct(Titles(d)) && t in Titles(d)
    ensures Delete(d, t) == Without(d, [t])
  {
    var i := Find(Titles(d), t).value;
    OnlyAt(d, t, i);
    WithoutOnly(d, t, i);
  }

  /** `del d[name]` for each name in turn after checking that it is present; the error
      is the first name that is missing, whether never there or already deleted. */
  function DeleteEach(d: seq<Job>, names: seq<string>): Result<seq<Job>, string>
  {
    if names == [] then Ok(d)
    else if names[0] !in Titles(d) then Err(names[0])
    else DeleteEach(Delete(d, names[0]), names[1..])
  }

  /** `names[i]` is the name the `del` loop stops at: every earlier name is a title not
      met before, and `names[i]` is not a title or was met before. */
  predicate FirstMissing(titles: seq<string>, names: seq<string>, i: nat)
  {
    i < |names| && (names[i] !in titles || names[i] in names[..i])
    && forall k :: 0 <= k < i ==> names[k] in titles && names[k] !in names[..k]
  }

  /** The first missing name after a present name `n` is one place further on among the
      titles that still hold `n`. */
  lemma FirstMissingCons(td: seq<string>, tl: seq<string>, n: string, rest: seq<string>, j: nat)
    requires forall m :: m in tl <==> m in td && m != n
    requires n in td && FirstMissing(tl, rest, j)
    ensures FirstMissing(td, [n] + rest, j + 1)
  {
    var names := [n] + rest;
    assert names[..j + 1] == [n] + rest[..j];
    forall k | 0 <= k < j + 1 ensures names[k] in td && names[k] !in names[..k] {
      if k > 0 {
        assert names[k] == rest[k - 1];
        assert names[..k] == [n] + rest[..k - 1];
      }
    }
  }

  /** Membership is all a first missing name depends on. */
  lemma FirstMissingSameTitles(a: seq<string>, b: seq<string>, names: seq<string>, i: nat)
    requires forall m :: m in a <==> m in b
    requires FirstMissing(a, names, i)
    ensures FirstMissing(b, names, i)
  {
  }

  /** When deleting names one by one fails, the error is the first name that is not a
      title or was deleted already. */
  lemma {:induction false} DeleteEachError(d: seq<Job>, names: seq<string>)
    requires Distinct(Titles(d))
    ensures DeleteEach(d, names).Err? ==>
      exists i: nat :: FirstMissing(Titles(d), names, i) && DeleteEach(d, names).error == names[i]
  {
    if names != [] {
      var n, rest := names[0], names[1..];
      assert names == [n] + rest;
      if n !in Titles(d) {
        assert FirstMissing(Titles(d), names, 0);
      } else {
        var left := Delete(d, n);
        DeleteIsWithout(d, n);
        WithoutTitles(d, [n]);
        assert DeleteEach(d, names) == DeleteEach(left, rest);
        DeleteEachError(left, rest);
        if DeleteEach(left, rest).Err? {
          var j: nat :| FirstMissing(Titles(left), rest, j) && DeleteEach(left, rest).error == rest[j];
          FirstMissingCons(Titles(d), Titles(left), n, rest, j);
          assert names[j + 1] == rest[j];
        }
      }
    }
  }

  /** Deleting names one by one succeeds exactly when they are distinct and all present;
      it then keeps every other entry in order, and otherwise names the first name that
      is not a title or was deleted already. */
  lemma {:induction false} DeleteEachMeaning(d: seq<Job>, names: seq<string>)
    requires Distinct(Titles(d))
    ensures DeleteEach(d, names).Ok? <==>
      Distinct(names) && forall n :: n in names ==> n in Titles(d)
    ensures DeleteEach(d, names).Ok? ==> DeleteEach(d, names).value == Without(d, names)
    ensures DeleteEach(d, names).Err? ==>
      exists i: nat :: FirstMissing(Titles(d), names, i) && DeleteEach(d, names).error == names[i]
  {
    DeleteEachError(d, names);
    if names == [] {
      assert Without(d, []) == d by { WithoutAbsent(d, []); }
    } else if names[0] in Titles(d) {
      var n, rest := names[0], names[1..];
      var left := Delete(d, n);
      assert names == [n] + rest;
      DeleteIsWithout(d, n);
      WithoutTitles(d, [n]);
      DeleteEachMeaning(left, rest);
      DistinctCons(n, rest);
      WithoutWithout(d, [n], rest);
      assert forall m :: m in Titles(left) <==> m in Titles(d) && m != n;
      assert DeleteEach(d, names) == DeleteEach(left, rest);
      assert Distinct(names) <==> n !in rest && Distinct(rest);
      assert (forall m :: m in names ==> m in Titles(d)) <==>
        forall m :: m in rest ==> m in Titles(d);
    } else {
      assert names[0] in names;
    }
  }
}
