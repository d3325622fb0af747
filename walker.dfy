/**
 * The archive walk of one yearly archive: daily sub-archives in name order,
 * the CSV members of each in name order, each cleaned on its own, the first
 * cleaned row dropped from every file of every sub-archive after the first,
 * and the pieces concatenated. Opening and decompressing the archives is not
 * modelled: an archive is the list of its entries, and a member's content is
 * the table reading it yields.
 */
module Walker {
  import opened Wrappers
  import opened Seqs
  import opened Names
  import opened Cleaning

  /** A member of a daily sub-archive; only members with a CSV name are read. */
  type SourceFile = Entry<seq<RawRow>>

  /** A daily sub-archive of the yearly archive. */
  type SubArchive = Entry<seq<SourceFile>>

  /** One cleaned file: the position of its sub-archive in name order, and the file. */
  datatype Visit = Visit(subIndex: nat, file: SourceFile)

  /** `pd.concat([])` raises: a year without a single CSV file has nothing to concatenate. */
  datatype WalkError = NoObjectsToConcatenate

  /** The CSV members among `files`, in order, tagged with sub-archive index `i`. */
  function CsvVisits(i: nat, files: seq<SourceFile>): (vs: seq<Visit>)
    ensures |vs| <= |files|
  {
    if files == [] then []
    else
      var last := files[|files| - 1];
      CsvVisits(i, files[..|files| - 1]) + if IsCsvName(last.name) then [Visit(i, last)] else []
  }

  /** The files cleaned from the first `k` sub-archives of `subs`. */
  function VisitsUpTo(subs: seq<SubArchive>, k: nat): seq<Visit>
    requires k <= |subs|
  {
    if k == 0 then []
    else VisitsUpTo(subs, k - 1) + CsvVisits(k - 1, SortByName(subs[k - 1].content))
  }

  /** Every file the walk cleans, in the order it cleans them. */
  function WalkOrder(archive: seq<SubArchive>): seq<Visit> {
    VisitsUpTo(SortByName(archive), |archive|)
  }

  /** `df.iloc[1:]`: everything but the first row (nothing, from an empty table). */
  function DropFirst<T>(t: seq<T>): (r: seq<T>)
    ensures |r| == if t == [] then 0 else |t| - 1
    ensures t == [] ==> r == []
    ensures t != [] ==> t == [t[0]] + r
  {
    if t == [] then [] else t[1..]
  }

  /** What one cleaned file contributes: whole in sub-archive 0, without its first row after. */
  function Piece(v: Visit, selected: seq<int>): seq<HourlyRow> {
    var df := ProcessCsv(v.file.content, selected);
    if v.subIndex > 0 then DropFirst(df) else df
  }

  function Pieces(vs: seq<Visit>, selected: seq<int>): (dfs: seq<seq<HourlyRow>>)
    ensures |dfs| == |vs|
  {
    if vs == [] then []
    else Pieces(vs[..|vs| - 1], selected) + [Piece(vs[|vs| - 1], selected)]
  }

  /** The yearly table, or the error of concatenating no tables at all. */
  function WalkResult(archive: seq<SubArchive>, selected: seq<int>): Result<seq<HourlyRow>, WalkError> {
    var vs := WalkOrder(archive);
    if vs == [] then Failure(NoObjectsToConcatenate) else Success(Concat(Pieces(vs, selected)))
  }

  lemma CsvVisitsStep(i: nat, files: seq<SourceFile>, j: nat)
    requires j < |files|
    ensures CsvVisits(i, files[..j + 1]) ==
      CsvVisits(i, files[..j]) + if IsCsvName(files[j].name) then [Visit(i, files[j])] else []
  {
    assert files[..j + 1][..j] == files[..j];
  }

  lemma CleanCsvStep(i: nat, files: seq<SourceFile>, j: nat, selected: seq<int>)
    requires j < |files| && IsCsvName(files[j].name)
    ensures Pieces(CsvVisits(i, files[..j + 1]), selected) ==
      Pieces(CsvVisits(i, files[..j]), selected) + [Piece(Visit(i, files[j]), selected)]
  {
    CsvVisitsStep(i, files, j);
    PiecesStep(CsvVisits(i, files[..j]), Visit(i, files[j]), selected);
  }

  lemma SkipStep(i: nat, files: seq<SourceFile>, j: nat)
    requires j < |files| && !IsCsvName(files[j].name)
    ensures CsvVisits(i, files[..j + 1]) == CsvVisits(i, files[..j])
  {
    CsvVisitsStep(i, files, j);
  }

  lemma PiecesStep(vs: seq<Visit>, v: Visit, selected: seq<int>)
    ensures Pieces(vs + [v], selected) == Pieces(vs, selected) + [Piece(v, selected)]
  {
    assert (vs + [v])[..|vs|] == vs;
  }

  lemma VisitsUpToStep(subs: seq<SubArchive>, i: nat, selected: seq<int>)
    requires i < |subs|
    ensures Pieces(VisitsUpTo(subs, i + 1), selected) ==
      Pieces(VisitsUpTo(subs, i), selected) + Pieces(CsvVisits(i, SortByName(subs[i].content)), selected)
  {
    PiecesConcat(VisitsUpTo(subs, i), CsvVisits(i, SortByName(subs[i].content)), selected);
  }

  lemma {:induction false} PiecesConcat(a: seq<Visit>, b: seq<Visit>, selected: seq<int>)
    ensures Pieces(a + b, selected) == Pieces(a, selected) + Pieces(b, selected)
    decreases |b|
  {
    if b == [] {
      assert a + b == a;
    } else {
      var init := b[..|b| - 1];
      assert (a + b)[..|a + b| - 1] == a + init;
      PiecesConcat(a, init, selected);
    }
  }

  /** One CSV member cleaned, with the first row dropped outside the first sub-archive. */
  method CleanFile(i: nat, f: SourceFile, selected: seq<int>) returns (df: seq<HourlyRow>)
    ensures df == Piece(Visit(i, f), selected)
  {
    df := ProcessCsv(f.content, selected);
    if i > 0 {
      df := DropFirst(df);
    }
  }

  /** The inner loop over the (sorted) members of sub-archive `i`. */
  method CleanSubArchive(i: nat, files: seq<SourceFile>, selected: seq<int>)
    returns (dfs: seq<seq<HourlyRow>>)
    ensures dfs == Pieces(CsvVisits(i, files), selected)
  {
    dfs := [];
    var j := 0;
    while j < |files|
      invariant 0 <= j <= |files|
      invariant dfs == Pieces(CsvVisits(i, files[..j]), selected)
    {
      if IsCsvName(files[j].name) {
        var df := CleanFile(i, files[j], selected);
        CleanCsvStep(i, files, j, selected);
        dfs := dfs + [df];
      } else {
        SkipStep(i, files, j);
      }
      j := j + 1;
    }
    assert files[..j] == files;
  }

  /** The walk over one yearly archive, appending each cleaned file to `dfs`. */
  method Walk(archive: seq<SubArchive>, selected: seq<int>) returns (result: Result<seq<HourlyRow>, WalkError>)
    ensures result == WalkResult(archive, selected)
  {
    var subs := SortByName(archive);
    var dfs: seq<seq<HourlyRow>> := [];
    var i := 0;
    while i < |subs|
      invariant 0 <= i <= |subs|
      invariant dfs == Pieces(VisitsUpTo(subs, i), selected)
    {
      var files := SortByName(subs[i].content);
      var more := CleanSubArchive(i, files, selected);
      VisitsUpToStep(subs, i, selected);
      dfs := dfs + more;
      i := i + 1;
    }
    if dfs == [] {
      result := Failure(NoObjectsToConcatenate);
    } else {
      result := Success(Concat(dfs));
    }
  }

  // ------------------------------------------------------------ properties

  /** The files of one sub-archive that are cleaned: exactly its CSV members. */
  lemma {:induction false} CsvVisitsMembers(i: nat, files: seq<SourceFile>)
    ensures forall v :: v in CsvVisits(i, files) ==> v.subIndex == i && v.file in files && IsCsvName(v.file.name)
    ensures forall f :: f in files && IsCsvName(f.name) ==> Visit(i, f) in CsvVisits(i, files)
  {
    if files != [] {
      var init := files[..|files| - 1];
      CsvVisitsMembers(i, init);
      assert files == init + [files[|files| - 1]];
    }
  }

  lemma {:induction false} CsvVisitsIndex(i: nat, files: seq<SourceFile>)
    ensures forall p :: 0 <= p < |CsvVisits(i, files)| ==> CsvVisits(i, files)[p].subIndex == i
  {
    if files != [] {
      CsvVisitsIndex(i, files[..|files| - 1]);
    }
  }

  /** Within one sorted sub-archive the CSV files are cleaned in name order. */
  lemma {:induction false} CsvVisitsSorted(i: nat, files: seq<SourceFile>)
    requires SortedByName(files)
    ensures forall p, q :: 0 <= p < q < |CsvVisits(i, files)| ==>
      LexLe(CsvVisits(i, files)[p].file.name, CsvVisits(i, files)[q].file.name)
  {
    if files != [] {
      var n := |files|;
      var init := files[..n - 1];
      var last := files[n - 1];
      assert SortedByName(init);
      CsvVisitsSorted(i, init);
      CsvVisitsMembers(i, init);
      var before := CsvVisits(i, init);
      forall p | 0 <= p < |before| ensures LexLe(before[p].file.name, last.name) {
        assert before[p] in before;
        var k :| 0 <= k < |init| && init[k] == before[p].file;
      }
    }
  }

  /** Sub-archive indexes never decrease, and files of one sub-archive come in name order. */
  ghost predicate InWalkOrder(vs: seq<Visit>) {
    forall p, q :: 0 <= p < q < |vs| ==>
      vs[p].subIndex <= vs[q].subIndex &&
      (vs[p].subIndex == vs[q].subIndex ==> LexLe(vs[p].file.name, vs[q].file.name))
  }

  lemma InWalkOrderAppend(a: seq<Visit>, b: seq<Visit>, i: nat)
    requires InWalkOrder(a) && forall p :: 0 <= p < |a| ==> a[p].subIndex < i
    requires forall p :: 0 <= p < |b| ==> b[p].subIndex == i
    requires forall p, q :: 0 <= p < q < |b| ==> LexLe(b[p].file.name, b[q].file.name)
    ensures InWalkOrder(a + b)
    ensures forall p :: 0 <= p < |a + b| ==> (a + b)[p].subIndex <= i
  {
    var c := a + b;
    forall p, q | 0 <= p < q < |c|
      ensures c[p].subIndex <= c[q].subIndex &&
        (c[p].subIndex == c[q].subIndex ==> LexLe(c[p].file.name, c[q].file.name))
    {
      if q < |a| {
        assert c[p] == a[p] && c[q] == a[q];
      } else if p >= |a| {
        assert c[p] == b[p - |a|] && c[q] == b[q - |a|];
      } else {
        assert c[p] == a[p] && c[q] == b[q - |a|];
      }
    }
  }

  /** The files cleaned from one sub-archive carry its index and come in name order. */
  lemma SubArchiveVisits(i: nat, content: seq<SourceFile>, here: seq<Visit>)
    requires here == CsvVisits(i, SortByName(content))
    ensures forall p :: 0 <= p < |here| ==> here[p].subIndex == i
    ensures forall p, q :: 0 <= p < q < |here| ==> LexLe(here[p].file.name, here[q].file.name)
  {
    SortByNameCorrect(content);
    CsvVisitsSorted(i, SortByName(content));
    CsvVisitsIndex(i, SortByName(content));
  }

  /** The files cleaned from one sub-archive are exactly its CSV members. */
  lemma SubArchiveMembers(i: nat, content: seq<SourceFile>, here: seq<Visit>)
    requires here == CsvVisits(i, SortByName(content))
    ensures forall v :: v in here ==> v.subIndex == i && v.file in content && IsCsvName(v.file.name)
    ensures forall f :: f in content && IsCsvName(f.name) ==> Visit(i, f) in here
  {
    SortByNameMembers(content);
    CsvVisitsMembers(i, SortByName(content));
  }

  /** Files from the first `k` sub-archives carry sub-archive indexes below `k`
      and come in walk order. */
  lemma {:induction false} VisitsUpToOrdered(subs: seq<SubArchive>, k: nat)
    requires k <= |subs|
    ensures forall p :: 0 <= p < |VisitsUpTo(subs, k)| ==> VisitsUpTo(subs, k)[p].subIndex < k
    ensures InWalkOrder(VisitsUpTo(subs, k))
  {
    if k > 0 {
      var files := SortByName(subs[k - 1].content);
      var before, here := VisitsUpTo(subs, k - 1), CsvVisits(k - 1, files);
      assert VisitsUpTo(subs, k) == before + here;
      assert InWalkOrder(before) && forall p :: 0 <= p < |before| ==> before[p].subIndex < k - 1 by {
        VisitsUpToOrdered(subs, k - 1);
      }
      SubArchiveVisits(k - 1, subs[k - 1].content, here);
      InWalkOrderAppend(before, here, k - 1);
    }
  }

  /** Every file cleaned from the first `k` sub-archives was cleaned from one of them. */
  lemma {:induction false} VisitsUpToWithin(subs: seq<SubArchive>, k: nat)
    requires k <= |subs|
    ensures forall v :: v in VisitsUpTo(subs, k) ==>
      v.subIndex < k && v in CsvVisits(v.subIndex, SortByName(subs[v.subIndex].content))
  {
    if k > 0 {
      var i := k - 1;
      var before, here := VisitsUpTo(subs, i), CsvVisits(i, SortByName(subs[i].content));
      assert VisitsUpTo(subs, k) == before + here;
      VisitsUpToWithin(subs, i);
      forall v: Visit | v in before + here
        ensures v.subIndex < k && v in CsvVisits(v.subIndex, SortByName(subs[v.subIndex].content))
      {
        if v !in before {
          CsvVisitsMembers(i, SortByName(subs[i].content));
        }
      }
    }
  }

  /** Only CSV members of the first `k` sub-archives are cleaned. */
  lemma VisitsUpToSound(subs: seq<SubArchive>, k: nat)
    requires k <= |subs|
    ensures forall v :: v in VisitsUpTo(subs, k) ==>
      v.subIndex < k && v.file in subs[v.subIndex].content && IsCsvName(v.file.name)
  {
    VisitsUpToWithin(subs, k);
    forall v | v in VisitsUpTo(subs, k)
      ensures v.subIndex < k && v.file in subs[v.subIndex].content && IsCsvName(v.file.name)
    {
      SubArchiveMembers(v.subIndex, subs[v.subIndex].content, CsvVisits(v.subIndex, SortByName(subs[v.subIndex].content)));
    }
  }

  /** The files cleaned from sub-archive `i` are among those cleaned from the first `k`, when `i < k`. */
  lemma {:induction false} VisitsUpToContains(subs: seq<SubArchive>, k: nat, i: nat)
    requires i < k <= |subs|
    ensures forall v :: v in CsvVisits(i, SortByName(subs[i].content)) ==> v in VisitsUpTo(subs, k)
  {
    var before, here := VisitsUpTo(subs, k - 1), CsvVisits(k - 1, SortByName(subs[k - 1].content));
    assert VisitsUpTo(subs, k) == before + here;
    if i < k - 1 {
      VisitsUpToContains(subs, k - 1, i);
    }
  }

  /** Every CSV member of the first `k` sub-archives is cleaned. */
  lemma VisitsUpToComplete(subs: seq<SubArchive>, k: nat)
    requires k <= |subs|
    ensures forall i, f :: 0 <= i < k && f in subs[i].content && IsCsvName(f.name) ==>
      Visit(i, f) in VisitsUpTo(subs, k)
  {
    forall i, f | 0 <= i < k && f in subs[i].content && IsCsvName(f.name)
      ensures Visit(i, f) in VisitsUpTo(subs, k)
    {
      var here := CsvVisits(i, SortByName(subs[i].content));
      SubArchiveMembers(i, subs[i].content, here);
      VisitsUpToContains(subs, k, i);
    }
  }

  /** Counting a visit over the first `k` sub-archives: its count over the first
      `k - 1`, plus its count among those of sub-archive `k - 1`. */
  lemma CountVisitsUpTo(subs: seq<SubArchive>, k: nat, v: Visit)
    requires 0 < k <= |subs|
    ensures Count(VisitsUpTo(subs, k), v) ==
      Count(VisitsUpTo(subs, k - 1), v) + Count(CsvVisits(k - 1, SortByName(subs[k - 1].content)), v)
  {
    CountConcat(VisitsUpTo(subs, k - 1), CsvVisits(k - 1, SortByName(subs[k - 1].content)), v);
  }

  /** A CSV member is cleaned from sub-archive `i` as often as it occurs among its members. */
  lemma {:induction false} CsvVisitsCount(i: nat, files: seq<SourceFile>, f: SourceFile)
    requires IsCsvName(f.name)
    ensures Count(CsvVisits(i, files), Visit(i, f)) == Count(files, f)
  {
    if files != [] {
      var init, last := files[..|files| - 1], files[|files| - 1];
      var tail := if IsCsvName(last.name) then [Visit(i, last)] else [];
      CsvVisitsCount(i, init, f);
      CountConcat(CsvVisits(i, init), tail, Visit(i, f));
    }
  }

  /** Sub-archive `i` yields no visit tagged with another index. */
  lemma CsvVisitsElsewhere(i: nat, files: seq<SourceFile>, v: Visit)
    requires v.subIndex != i
    ensures Count(CsvVisits(i, files), v) == 0
  {
    CsvVisitsMembers(i, files);
    CountAbsent(CsvVisits(i, files), v);
  }

  /** The first `k` sub-archives yield no visit tagged `k` or later. */
  lemma VisitsUpToLater(subs: seq<SubArchive>, k: nat, v: Visit)
    requires k <= |subs| && v.subIndex >= k
    ensures Count(VisitsUpTo(subs, k), v) == 0
  {
    VisitsUpToWithin(subs, k);
    CountAbsent(VisitsUpTo(subs, k), v);
  }

  /** Each CSV member of the last of the first `k` sub-archives is cleaned
      exactly as often as it occurs there. */
  lemma VisitsUpToCountLast(subs: seq<SubArchive>, k: nat, f: SourceFile)
    requires 0 < k <= |subs| && IsCsvName(f.name)
    ensures Count(VisitsUpTo(subs, k), Visit(k - 1, f)) == Count(SortByName(subs[k - 1].content), f)
  {
    CountVisitsUpTo(subs, k, Visit(k - 1, f));
    VisitsUpToLater(subs, k - 1, Visit(k - 1, f));
    CsvVisitsCount(k - 1, SortByName(subs[k - 1].content), f);
  }

  /** Sub-archives after the one a visit is tagged with do not change its count. */
  lemma {:induction false} VisitsUpToSettled(subs: seq<SubArchive>, k: nat, v: Visit)
    requires v.subIndex < k <= |subs|
    ensures Count(VisitsUpTo(subs, k), v) == Count(VisitsUpTo(subs, v.subIndex + 1), v)
  {
    if k > v.subIndex + 1 {
      CountVisitsUpTo(subs, k, v);
      CsvVisitsElsewhere(k - 1, SortByName(subs[k - 1].content), v);
      VisitsUpToSettled(subs, k - 1, v);
    }
  }

  /** Each CSV member of each of the first `k` sub-archives is cleaned exactly
      as often as it occurs there. */
  lemma VisitsUpToCount(subs: seq<SubArchive>, k: nat, j: nat, f: SourceFile)
    requires j < k <= |subs| && IsCsvName(f.name)
    ensures Count(VisitsUpTo(subs, k), Visit(j, f)) == Count(SortByName(subs[j].content), f)
  {
    VisitsUpToSettled(subs, k, Visit(j, f));
    VisitsUpToCountLast(subs, j + 1, f);
  }

  /** The walk cleans exactly the CSV members (case-insensitive `.csv`) of the
      sub-archives, each as often as it occurs (once, when names are distinct),
      sub-archives in name order, files in name order within each. */
  lemma WalkOrderSpec(archive: seq<SubArchive>)
    ensures SortedByName(SortByName(archive))
    ensures forall v :: v in WalkOrder(archive) ==>
      v.subIndex < |archive| && v.file in SortByName(archive)[v.subIndex].content && IsCsvName(v.file.name)
    ensures forall i, f :: 0 <= i < |archive| && f in SortByName(archive)[i].content && IsCsvName(f.name) ==>
      Visit(i, f) in WalkOrder(archive)
    ensures forall i, f: SourceFile :: 0 <= i < |archive| && IsCsvName(f.name) ==>
      multiset(WalkOrder(archive))[Visit(i, f)] == multiset(SortByName(archive)[i].content)[f]
    ensures InWalkOrder(WalkOrder(archive))
  {
    SortByNameCorrect(archive);
    forall i, f: SourceFile | 0 <= i < |archive| && IsCsvName(f.name)
      ensures multiset(WalkOrder(archive))[Visit(i, f)] == multiset(SortByName(archive)[i].content)[f]
    {
      var content := SortByName(archive)[i].content;
      VisitsUpToCount(SortByName(archive), |archive|, i, f);
      CountMultiset(WalkOrder(archive), Visit(i, f));
      CountMultiset(SortByName(content), f);
      SortByNameCorrect(content);
    }
    VisitsUpToSound(SortByName(archive), |archive|);
    VisitsUpToComplete(SortByName(archive), |archive|);
    VisitsUpToOrdered(SortByName(archive), |archive|);
  }

  /** The walk fails exactly when no sub-archive holds a member with a CSV name. */
  lemma WalkFailsWithoutCsv(archive: seq<SubArchive>, selected: seq<int>)
    ensures WalkResult(archive, selected).Failure? <==>
      forall a, f :: a in archive && f in a.content ==> !IsCsvName(f.name)
  {
    var subs := SortByName(archive);
    var vs := WalkOrder(archive);
    if exists a, f :: a in archive && f in a.content && IsCsvName(f.name) {
      var a, f :| a in archive && f in a.content && IsCsvName(f.name);
      var i :| 0 <= i < |subs| && subs[i] == a by {
        SortByNameMembers(archive);
        assert a in subs;
      }
      assert Visit(i, f) in vs by {
        VisitsUpToComplete(subs, |archive|);
      }
    }
    if vs != [] {
      var v := vs[0];
      assert v.subIndex < |archive| && v.file in subs[v.subIndex].content && IsCsvName(v.file.name) by {
        assert v in vs;
        VisitsUpToSound(subs, |archive|);
      }
      SortByNameAt(archive, v.subIndex);
    }
  }

  /** Rows produced by cleaning the visited files, before any row is dropped. */
  function CleanedRows(vs: seq<Visit>, selected: seq<int>): nat {
    if vs == [] then 0
    else CleanedRows(vs[..|vs| - 1], selected) + |ProcessCsv(vs[|vs| - 1].file.content, selected)|
  }

  /** Visited files that lose a row: non-empty after cleaning, from a sub-archive after the first. */
  function HeaderDrops(vs: seq<Visit>, selected: seq<int>): nat {
    if vs == [] then 0
    else
      var v := vs[|vs| - 1];
      HeaderDrops(vs[..|vs| - 1], selected) +
        if v.subIndex > 0 && ProcessCsv(v.file.content, selected) != [] then 1 else 0
  }

  lemma {:induction false} PiecesRowCount(vs: seq<Visit>, selected: seq<int>)
    ensures |Concat(Pieces(vs, selected))| + HeaderDrops(vs, selected) == CleanedRows(vs, selected)
  {
    if vs != [] {
      var init := vs[..|vs| - 1];
      PiecesRowCount(init, selected);
      assert Pieces(vs, selected)[..|vs| - 1] == Pieces(init, selected);
    }
  }

  /** Row count of a year: the rows of every cleaned file, less one for every
      non-empty file from a sub-archive after the first; nothing is deduplicated. */
  lemma WalkRowCount(archive: seq<SubArchive>, selected: seq<int>)
    ensures WalkResult(archive, selected).Success? ==>
      |WalkResult(archive, selected).value| + HeaderDrops(WalkOrder(archive), selected) ==
        CleanedRows(WalkOrder(archive), selected)
  {
    PiecesRowCount(WalkOrder(archive), selected);
  }

  /** The `k`-th piece is the `k`-th visited file cleaned: whole when it comes
      from sub-archive 0, otherwise without its first row. */
  lemma {:induction false} PieceAt(vs: seq<Visit>, selected: seq<int>, k: nat)
    requires k < |vs|
    ensures var df := ProcessCsv(vs[k].file.content, selected);
      var piece := Pieces(vs, selected)[k];
      (vs[k].subIndex == 0 ==> piece == df) &&
      (vs[k].subIndex > 0 && df == [] ==> piece == []) &&
      (vs[k].subIndex > 0 && df != [] ==> [df[0]] + piece == df)
  {
    if k < |vs| - 1 {
      PieceAt(vs[..|vs| - 1], selected, k);
      assert Pieces(vs, selected)[k] == Pieces(vs[..|vs| - 1], selected)[k];
    } else {
      var df := ProcessCsv(vs[k].file.content, selected);
      if df != [] {
        assert df == [df[0]] + df[1..];
      }
    }
  }

  /** The row a file from a later sub-archive loses is not a header but data:
      hour 1 of the first raw row the file kept. */
  lemma DroppedRow(vs: seq<Visit>, selected: seq<int>, k: nat)
    requires k < |vs| && vs[k].subIndex > 0 && ProcessCsv(vs[k].file.content, selected) != []
    ensures var kept := KeptRows(vs[k].file.content, selected);
      kept != [] &&
      [ExpectedRow(kept[0], 0)] + Pieces(vs, selected)[k] == ProcessCsv(vs[k].file.content, selected)
  {
    var rows := vs[k].file.content;
    PieceAt(vs, selected, k);
    OutputRowAt(rows, selected, 0, 0, 0);
  }

  /** Every row of a year's table belongs to a selected site and has a
      non-negative volume. */
  lemma WalkRowsSound(archive: seq<SubArchive>, selected: seq<int>)
    ensures WalkResult(archive, selected).Success? ==>
      forall o :: o in WalkResult(archive, selected).value ==> o.siteId in selected && o.volume >= 0
  {
    var vs := WalkOrder(archive);
    var dfs := Pieces(vs, selected);
    forall o: HourlyRow | o in Concat(dfs) ensures o.siteId in selected && o.volume >= 0 {
      ConcatMember(dfs, o);
      var k :| 0 <= k < |dfs| && o in dfs[k];
      var df := ProcessCsv(vs[k].file.content, selected);
      PieceAt(vs, selected, k);
      OutputRowsSound(vs[k].file.content, selected);
      if vs[k].subIndex > 0 && df != [] {
        assert o in [df[0]] + dfs[k];
      }
    }
  }
}
