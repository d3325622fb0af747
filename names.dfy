/**
 * File names inside the nested archives: Python's `str.lower`, `str.endswith`,
 * code-point string order and `sorted` over the names of archive entries.
 */
module Names {

  /** Python `str.lower` on one character. Only ASCII letters are mapped; no
      other character lowers to one of ".csv", so the CSV test below is exact. */
  function LowerChar(c: char): char {
    if 'A' <= c <= 'Z' then (c as int + 32) as char else c
  }

  function Lower(s: string): (r: string)
    ensures |r| == |s|
    ensures forall i :: 0 <= i < |s| ==> r[i] == LowerChar(s[i])
  {
    if s == [] then [] else [LowerChar(s[0])] + Lower(s[1..])
  }

  predicate EndsWith(s: string, suffix: string) {
    |suffix| <= |s| && s[|s| - |suffix|..] == suffix
  }

  /** `csv_name.lower().endswith(".csv")`. */
  predicate IsCsvName(name: string) {
    EndsWith(Lower(name), ".csv")
  }

  /** The CSV test accepts exactly the names whose last four characters spell
      ".csv" in any mix of upper and lower case. */
  lemma CsvNameCaseInsensitive(name: string)
    ensures IsCsvName(name) <==>
      |name| >= 4 &&
      name[|name| - 4] == '.' &&
      name[|name| - 3] in "cC" &&
      name[|name| - 2] in "sS" &&
      name[|name| - 1] in "vV"
  {
    var low := Lower(name);
    var n := |name|;
    if n >= 4 {
      if name[n - 4] == '.' && name[n - 3] in "cC" && name[n - 2] in "sS" && name[n - 1] in "vV" {
        assert low[n - 4..] == ".csv";
      } else {
        assert low[n - 4..][0] == low[n - 4];
        assert low[n - 4..][1] == low[n - 3];
        assert low[n - 4..][2] == low[n - 2];
        assert low[n - 4..][3] == low[n - 1];
      }
    }
  }

  /** Python's `<=` on `str`: code-point lexicographic order, a proper prefix first. */
  predicate LexLe(a: string, b: string) {
    if a == [] then true
    else if b == [] then false
    else if a[0] != b[0] then a[0] < b[0]
    else LexLe(a[1..], b[1..])
  }

  lemma {:induction false} LexLeTotal(a: string, b: string)
    ensures LexLe(a, b) || LexLe(b, a)
  {
    if a != [] && b != [] && a[0] == b[0] {
      LexLeTotal(a[1..], b[1..]);
    }
  }

  lemma {:induction false} LexLeTransitive(a: string, b: string, c: string)
    requires LexLe(a, b) && LexLe(b, c)
    ensures LexLe(a, c)
  {
    if a != [] && b != [] && c != [] && a[0] == b[0] && b[0] == c[0] {
      LexLeTransitive(a[1..], b[1..], c[1..]);
    }
  }

  /** One member of a zip archive: its name and what reading it yields. */
  datatype Entry<C> = Entry(name: string, content: C)

  ghost predicate SortedByName<C>(s: seq<Entry<C>>) {
    forall i, j :: 0 <= i < j < |s| ==> LexLe(s[i].name, s[j].name)
  }

  /** Inserts `e` in front of the first entry whose name is not smaller. */
  function Insert<C>(e: Entry<C>, s: seq<Entry<C>>): (r: seq<Entry<C>>)
    ensures |r| == |s| + 1
  {
    if s == [] then [e]
    else if LexLe(e.name, s[0].name) then [e] + s
    else [s[0]] + Insert(e, s[1..])
  }

  /** Python `sorted` over the archive's member names (insertion sort; stable). */
  function SortByName<C>(s: seq<Entry<C>>): (r: seq<Entry<C>>)
    ensures |r| == |s|
  {
    if s == [] then [] else Insert(s[0], SortByName(s[1..]))
  }

  /** Insertion adds exactly `e`. */
  lemma {:induction false} InsertPermutes<C>(e: Entry<C>, s: seq<Entry<C>>)
    ensures multiset(Insert(e, s)) == multiset(s) + multiset{e}
  {
    if s != [] && !LexLe(e.name, s[0].name) {
      InsertPermutes(e, s[1..]);
      assert s == [s[0]] + s[1..];
    }
  }

  /** Inserting into a sorted list keeps it sorted. */
  lemma {:induction false} InsertSorted<C>(e: Entry<C>, s: seq<Entry<C>>)
    requires SortedByName(s)
    ensures SortedByName(Insert(e, s))
  {
    if s == [] {
    } else if LexLe(e.name, s[0].name) {
      var r := [e] + s;
      forall i, j | 0 <= i < j < |r| ensures LexLe(r[i].name, r[j].name) {
        if i == 0 && j > 1 {
          LexLeTransitive(e.name, s[0].name, s[j - 1].name);
        }
      }
    } else {
      LexLeTotal(e.name, s[0].name);
      var rest := Insert(e, s[1..]);
      InsertSorted(e, s[1..]);
      InsertPermutes(e, s[1..]);
      var r := [s[0]] + rest;
      forall j | 0 <= j < |rest| ensures LexLe(s[0].name, rest[j].name) {
        assert rest[j] in multiset(rest);
        if rest[j] != e {
          assert rest[j] in multiset(s[1..]);
          var k :| 0 <= k < |s[1..]| && s[1..][k] == rest[j];
          assert s[k + 1] == rest[j];
        }
      }
      forall i, j | 0 <= i < j < |r| ensures LexLe(r[i].name, r[j].name) {
        assert r[j] == rest[j - 1];
        if i > 0 {
          assert r[i] == rest[i - 1];
        }
      }
    }
  }

  /** `SortByName` returns the entries it was given, ordered by name. */
  lemma {:induction false} SortByNameCorrect<C>(s: seq<Entry<C>>)
    ensures SortedByName(SortByName(s))
    ensures multiset(SortByName(s)) == multiset(s)
  {
    if s != [] {
      SortByNameCorrect(s[1..]);
      InsertSorted(s[0], SortByName(s[1..]));
      InsertPermutes(s[0], SortByName(s[1..]));
      assert s == [s[0]] + s[1..];
    }
  }

  /** Sorting neither adds nor loses entries. */
  lemma SortByNameMembers<C>(s: seq<Entry<C>>)
    ensures forall x :: x in SortByName(s) <==> x in s
  {
    SortByNameCorrect(s);
    var r := SortByName(s);
    forall x ensures x in r <==> x in s {
      assert x in r <==> x in multiset(r);
      assert x in s <==> x in multiset(s);
    }
  }

  lemma SortByNameAt<C>(s: seq<Entry<C>>, i: nat)
    requires i < |s|
    ensures SortByName(s)[i] in s
  {
    SortByNameCorrect(s);
    var r := SortByName(s);
    assert r[i] in multiset(r);
  }
}
