/** list_files and total_space_bytes (app.py:39-43): the stored names in
    case-insensitive order, and the sum of the stored sizes. */
module Listing {
  import opened FileNames
  import opened Storage

  // ---------------------------------------------------------------------
  // Orders on names
  // ---------------------------------------------------------------------

  /** Python's `<=` on str: lexicographic by code point, a prefix first. */
  predicate LexLe(a: string, b: string) {
    a == [] || (b != [] && (a[0] < b[0] || (a[0] == b[0] && LexLe(a[1..], b[1..]))))
  }

  lemma {:induction false} LexLeTotal(a: string, b: string)
    ensures LexLe(a, b) || LexLe(b, a)
  {
    if a != [] && b != [] && a[0] == b[0] {
      LexLeTotal(a[1..], b[1..]);
    }
  }

  lemma {:induction false} LexLeAntisymmetric(a: string, b: string)
    requires LexLe(a, b) && LexLe(b, a)
    ensures a == b
  {
    if a != [] && b != [] {
      LexLeAntisymmetric(a[1..], b[1..]);
      assert a == [a[0]] + a[1..] && b == [b[0]] + b[1..];
    }
  }

  lemma {:induction false} LexLeTransitive(a: string, b: string, c: string)
    requires LexLe(a, b) && LexLe(b, c)
    ensures LexLe(a, c)
  {
    if a != [] && b != [] && c != [] && a[0] == b[0] == c[0] {
      LexLeTransitive(a[1..], b[1..], c[1..]);
    }
  }

  /** The sort key of list_files; it stands for str.casefold. */
  function SortKey(name: string): string {
    Lower(name)
  }

  /** The order the listing shows names in: by sort key, and names whose
      keys are equal by the names themselves. */
  predicate ListedBefore(a: string, b: string) {
    if SortKey(a) == SortKey(b) then LexLe(a, b) else LexLe(SortKey(a), SortKey(b))
  }

  lemma ListedBeforeTotal(a: string, b: string)
    ensures ListedBefore(a, b) || ListedBefore(b, a)
  {
    LexLeTotal(a, b);
    LexLeTotal(SortKey(a), SortKey(b));
  }

  lemma ListedBeforeAntisymmetric(a: string, b: string)
    requires ListedBefore(a, b) && ListedBefore(b, a)
    ensures a == b
  {
    if SortKey(a) == SortKey(b) {
      LexLeAntisymmetric(a, b);
    } else {
      LexLeAntisymmetric(SortKey(a), SortKey(b));
    }
  }

  lemma ListedBeforeTransitive(a: string, b: string, c: string)
    requires ListedBefore(a, b) && ListedBefore(b, c)
    ensures ListedBefore(a, c)
  {
    var ka, kb, kc := SortKey(a), SortKey(b), SortKey(c);
    LexLeReflexive(ka);
    LexLeReflexive(kb);
    assert LexLe(ka, kb) && LexLe(kb, kc);
    LexLeTransitive(ka, kb, kc);
    if ka == kb && kb == kc {
      LexLeTransitive(a, b, c);
    } else if ka == kc {
      LexLeAntisymmetric(ka, kb);
    }
  }

  lemma {:induction false} LexLeReflexive(a: string)
    ensures LexLe(a, a)
  {
    if a != [] {
      LexLeReflexive(a[1..]);
    }
  }

  /** A name listed before another has a sort key that is not greater. */
  lemma ListedBeforeKeys(a: string, b: string)
    requires ListedBefore(a, b)
    ensures LexLe(SortKey(a), SortKey(b))
  {
    LexLeReflexive(SortKey(a));
  }

  /** The listing order is total, transitive and antisymmetric. */
  lemma ListedBeforeIsTotalOrder()
    ensures forall a, b :: ListedBefore(a, b) || ListedBefore(b, a)
    ensures forall a, b, c :: ListedBefore(a, b) && ListedBefore(b, c) ==> ListedBefore(a, c)
    ensures forall a, b :: ListedBefore(a, b) && ListedBefore(b, a) ==> a == b
  {
    forall a, b ensures ListedBefore(a, b) || ListedBefore(b, a) {
      ListedBeforeTotal(a, b);
    }
    forall a, b, c | ListedBefore(a, b) && ListedBefore(b, c) ensures ListedBefore(a, c) {
      ListedBeforeTransitive(a, b, c);
    }
    forall a, b | ListedBefore(a, b) && ListedBefore(b, a) ensures a == b {
      ListedBeforeAntisymmetric(a, b);
    }
  }

  /** Under a total, transitive relation a non-empty finite set has a
      least element. */
  lemma {:induction false} LeastExists(names: set<string>, le: (string, string) -> bool)
    requires names != {}
    requires forall a, b :: le(a, b) || le(b, a)
    requires forall a, b, c :: le(a, b) && le(b, c) ==> le(a, c)
    ensures exists m :: m in names && forall k :: k in names ==> le(m, k)
    decreases |names|
  {
    var x :| x in names;
    var rest := names - {x};
    if rest == {} {
      assert names == {x};
      assert le(x, x);
    } else {
      LeastExists(rest, le);
      var m :| m in rest && forall k :: k in rest ==> le(m, k);
      if le(x, m) {
        forall k | k in names ensures le(x, k) {
          if k != x { assert le(m, k); } else { assert le(x, x) || le(x, x); }
        }
      } else {
        assert forall k :: k in names ==> le(m, k);
      }
    }
  }

  /** The first of a non-empty set of names in listing order. */
  function First(names: set<string>): (m: string)
    requires names != {}
    ensures m in names && forall k {:trigger ListedBefore(m, k)} :: k in names ==> ListedBefore(m, k)
  {
    ListedBeforeIsTotalOrder();
    LeastExists(names, ListedBefore);
    var m :| m in names && forall k :: k in names ==> ListedBefore(m, k);
    m
  }

  // ---------------------------------------------------------------------
  // list_files
  // ---------------------------------------------------------------------

  /** list_files (app.py:39-40): the stored names, the first in listing
      order followed by the listing of the others. */
  function ListFiles(dir: Dir): (r: seq<string>)
    ensures |r| == |dir|
    ensures forall i :: 0 <= i < |r| ==> r[i] in dir
    decreases |dir|
  {
    if |dir| == 0 then []
    else
      var m := First(dir.Keys);
      var rest := dir - {m};
      assert rest.Keys == dir.Keys - {m};
      [m] + ListFiles(rest)
  }

  /** list_files shows every stored name exactly once and nothing else. */
  lemma {:induction false} ListFilesExactly(dir: Dir)
    ensures ListsExactly(dir, ListFiles(dir))
    decreases |dir|
  {
    if |dir| > 0 {
      var m := First(dir.Keys);
      var rest := dir - {m};
      assert rest.Keys == dir.Keys - {m};
      var tail := ListFiles(rest);
      assert ListFiles(dir) == [m] + tail;
      ListFilesExactly(rest);
      ConsListsExactly(dir, m, tail);
    }
  }

  /** list_files shows the names in non-decreasing order of sort key; names
      whose keys coincide ("A.txt", "a.txt") are ordered by the names
      themselves. */
  lemma {:induction false} ListFilesSorted(dir: Dir)
    ensures SortedByKey(ListFiles(dir))
    decreases |dir|
  {
    if |dir| > 0 {
      var m := First(dir.Keys);
      var rest := dir - {m};
      assert rest.Keys == dir.Keys - {m};
      var tail := ListFiles(rest);
      assert ListFiles(dir) == [m] + tail;
      ListFilesSorted(rest);
      ListFilesExactly(rest);
      forall j | 0 <= j < |tail| ensures LexLe(SortKey(m), SortKey(tail[j])) {
        assert tail[j] in rest;
        ListedBeforeKeys(m, tail[j]);
      }
      ConsSorted(m, tail);
    }
  }

  /** `r` holds every name of `dir` exactly once and nothing else. */
  ghost predicate ListsExactly(dir: Dir, r: seq<string>) {
    && |r| == |dir|
    && (forall n :: n in dir <==> n in r)
    && (forall i, j :: 0 <= i < j < |r| ==> r[i] != r[j])
  }

  /** The sort keys along `r` never decrease. */
  ghost predicate SortedByKey(r: seq<string>) {
    forall i, j :: 0 <= i < j < |r| ==> LexLe(SortKey(r[i]), SortKey(r[j]))
  }

  lemma ConsListsExactly(dir: Dir, m: string, tail: seq<string>)
    requires m in dir && ListsExactly(dir - {m}, tail)
    ensures ListsExactly(dir, [m] + tail)
  {
    var rest := dir - {m};
    assert rest.Keys == dir.Keys - {m};
    var r := [m] + tail;
    assert forall i :: 1 <= i < |r| ==> r[i] == tail[i - 1];
    assert forall n :: n in r <==> n == m || n in tail;
    forall n | n in dir ensures n in r {
      if n != m { assert n in rest; }
    }
  }

  lemma ConsSorted(m: string, tail: seq<string>)
    requires SortedByKey(tail)
    requires forall j :: 0 <= j < |tail| ==> LexLe(SortKey(m), SortKey(tail[j]))
    ensures SortedByKey([m] + tail)
  {
    var r := [m] + tail;
    assert forall i :: 1 <= i < |r| ==> r[i] == tail[i - 1];
  }

  // ---------------------------------------------------------------------
  // total_space_bytes
  // ---------------------------------------------------------------------

  /** total_space_bytes (app.py:42-43): the sizes of the stored files added
      up from 0, visiting the files in whatever order the directory scan
      gives. */
  ghost function TotalBytes(dir: Dir): (t: nat)
    ensures |dir| == 0 ==> t == 0
  {
    SumSizes(dir, dir.Keys)
  }

  /** The sizes of the files named in `names`, visited in an arbitrary order. */
  ghost function SumSizes(dir: Dir, names: set<string>): nat
    requires names <= dir.Keys
  {
    if names == {} then 0
    else
      var m :| m in names;
      |dir[m]| + SumSizes(dir, names - {m})
  }

  /** The sum does not depend on the visiting order: taking out any one file
      leaves the sum of the others. */
  lemma {:induction false} SumSizesWithout(dir: Dir, names: set<string>, n: string)
    requires names <= dir.Keys && n in names
    ensures SumSizes(dir, names) == |dir[n]| + SumSizes(dir, names - {n})
    decreases names
  {
    var m :| m in names && SumSizes(dir, names) == |dir[m]| + SumSizes(dir, names - {m});
    if m != n {
      SumSizesWithout(dir, names - {m}, n);
      SumSizesWithout(dir, names - {n}, m);
      assert names - {m} - {n} == names - {n} - {m};
    }
  }

  /** The sum only reads the named files. */
  lemma {:induction false} SumSizesAgree(d1: Dir, d2: Dir, names: set<string>)
    requires names <= d1.Keys && names <= d2.Keys
    requires forall n :: n in names ==> d1[n] == d2[n]
    ensures SumSizes(d1, names) == SumSizes(d2, names)
    decreases names
  {
    if names != {} {
      var m :| m in names;
      SumSizesWithout(d1, names, m);
      SumSizesWithout(d2, names, m);
      SumSizesAgree(d1, d2, names - {m});
    }
  }

  /** Taking out a file takes out its size. */
  lemma TotalBytesWithout(dir: Dir, n: string)
    requires n in dir
    ensures TotalBytes(dir) == |dir[n]| + TotalBytes(dir - {n})
  {
    var rest := dir - {n};
    assert rest.Keys == dir.Keys - {n};
    SumSizesWithout(dir, dir.Keys, n);
    SumSizesAgree(dir, rest, rest.Keys);
  }

  /** Adding a file adds its size. */
  lemma TotalBytesAdd(dir: Dir, n: string, content: Bytes)
    requires n !in dir
    ensures TotalBytes(dir[n := content]) == TotalBytes(dir) + |content|
  {
    TotalBytesWithout(dir[n := content], n);
    assert dir[n := content] - {n} == dir;
  }

  /** Overwriting a file changes the total by the change in its size. */
  lemma TotalBytesOverwrite(dir: Dir, n: string, content: Bytes)
    requires n in dir
    ensures TotalBytes(dir[n := content]) == TotalBytes(dir) - |dir[n]| + |content|
  {
    TotalBytesWithout(dir[n := content], n);
    TotalBytesWithout(dir, n);
    assert dir[n := content] - {n} == dir - {n};
  }

  /** The sizes of the stored files among `names`, added up in the order of
      `names`. */
  function SizesOf(dir: Dir, names: seq<string>): nat {
    if names == [] then 0
    else (if names[0] in dir then |dir[names[0]]| else 0) + SizesOf(dir, names[1..])
  }

  /** total_space_bytes is the sum of the sizes in the order list_files
      shows the files. */
  lemma {:induction false} TotalBytesIsSumOfListing(dir: Dir)
    ensures TotalBytes(dir) == SizesOf(dir, ListFiles(dir))
    decreases |dir|
  {
    if |dir| > 0 {
      var m := First(dir.Keys);
      var rest := dir - {m};
      assert rest.Keys == dir.Keys - {m};
      var tail := ListFiles(rest);
      assert ListFiles(dir) == [m] + tail;
      assert ([m] + tail)[1..] == tail;
      TotalBytesIsSumOfListing(rest);
      TotalBytesWithout(dir, m);
      ListFilesExactly(rest);
      SizesOfWider(rest, dir, tail);
    }
  }

  /** A sum of sizes only reads the named files. */
  lemma {:induction false} SizesOfWider(small: Dir, big: Dir, names: seq<string>)
    requires forall i :: 0 <= i < |names| ==> names[i] in small
    requires forall n :: n in small ==> n in big && big[n] == small[n]
    ensures SizesOf(small, names) == SizesOf(big, names)
  {
    if names != [] {
      SizesOfWider(small, big, names[1..]);
    }
  }
}
