/** Intentions (the items shown in the tree) and the order in which the tree
    lists them: by category path, compared lexicographically and ignoring
    case, then by family name. */
module ItemOrder {

  /** An intention's metadata. `id` stands for the identity of the metadata
      object: two entries with equal category and family are still two
      distinct items. */
  datatype Item = Item(id: nat, category: seq<string>, family: string)

  /** String comparison: the first differing character decides, and a proper
      prefix comes first (the sign of `String.compareTo`). */
  predicate StrLt(a: string, b: string)
  {
    if a == [] then b != []
    else b != [] && (a[0] < b[0] || (a[0] == b[0] && StrLt(a[1..], b[1..])))
  }

  /** Lexicographic order on category paths: the first differing segment
      decides, and a proper prefix comes first. */
  predicate PathLt(a: seq<string>, b: seq<string>)
  {
    if a == [] then b != []
    else b != [] && (StrLt(a[0], b[0]) || (a[0] == b[0] && PathLt(a[1..], b[1..])))
  }

  /** The case folding of `String.compareToIgnoreCase`, for the ASCII
      letters: an upper-case letter compares as its lower-case form. */
  function FoldCase(c: char): (r: char)
    ensures 'A' <= c <= 'Z' ==> 'a' <= r <= 'z'
    ensures !('A' <= c <= 'Z') ==> r == c
  {
    if 'A' <= c <= 'Z' then (c as int + 32) as char else c
  }

  function Folded(s: string): (r: string)
    ensures |r| == |s|
  {
    seq(|s|, i requires 0 <= i < |s| => FoldCase(s[i]))
  }

  /** The category path as `ArrayUtil.lexicographicCompare` sees it: its
      segments are compared ignoring case, so each is taken case-folded. */
  function CategoryKey(x: Item): seq<string>
  {
    seq(|x.category|, i requires 0 <= i < |x.category| => Folded(x.category[i]))
  }

  /** The comparator used to sort intentions returns a negative number:
      the category paths decide, segment by segment and ignoring case;
      when they compare equal, the family names decide. */
  predicate ItemLt(x: Item, y: Item)
  {
    PathLt(CategoryKey(x), CategoryKey(y)) || (CategoryKey(x) == CategoryKey(y) && StrLt(x.family, y.family))
  }

  lemma {:induction false} StrLtIrreflexive(a: string)
    ensures !StrLt(a, a)
  {
    if a != [] { StrLtIrreflexive(a[1..]); }
  }

  lemma {:induction false} StrLtTransitive(a: string, b: string, c: string)
    requires StrLt(a, b) && StrLt(b, c)
    ensures StrLt(a, c)
  {
    if a != [] && a[0] == b[0] && b[0] == c[0] {
      StrLtTransitive(a[1..], b[1..], c[1..]);
    }
  }

  lemma {:induction false} StrLtTotal(a: string, b: string)
    requires a != b
    ensures StrLt(a, b) || StrLt(b, a)
  {
    if a != [] && b != [] && a[0] == b[0] {
      assert a == [a[0]] + a[1..] && b == [b[0]] + b[1..];
      StrLtTotal(a[1..], b[1..]);
    }
  }

  lemma {:induction false} PathLtIrreflexive(a: seq<string>)
    ensures !PathLt(a, a)
  {
    if a != [] {
      StrLtIrreflexive(a[0]);
      PathLtIrreflexive(a[1..]);
    }
  }

  lemma {:induction false} PathLtTransitive(a: seq<string>, b: seq<string>, c: seq<string>)
    requires PathLt(a, b) && PathLt(b, c)
    ensures PathLt(a, c)
  {
    if a != [] {
      if StrLt(a[0], b[0]) && StrLt(b[0], c[0]) {
        StrLtTransitive(a[0], b[0], c[0]);
      } else if a[0] == b[0] && b[0] == c[0] {
        PathLtTransitive(a[1..], b[1..], c[1..]);
      }
    }
  }

  lemma {:induction false} PathLtTotal(a: seq<string>, b: seq<string>)
    requires a != b
    ensures PathLt(a, b) || PathLt(b, a)
  {
    if a != [] && b != [] {
      if a[0] == b[0] {
        assert a == [a[0]] + a[1..] && b == [b[0]] + b[1..];
        PathLtTotal(a[1..], b[1..]);
      } else {
        StrLtTotal(a[0], b[0]);
      }
    }
  }

  lemma ItemLtAsymmetric(x: Item, y: Item)
    requires ItemLt(x, y)
    ensures !ItemLt(y, x)
  {
    if PathLt(CategoryKey(x), CategoryKey(y)) && PathLt(CategoryKey(y), CategoryKey(x)) {
      PathLtTransitive(CategoryKey(x), CategoryKey(y), CategoryKey(x));
      PathLtIrreflexive(CategoryKey(x));
    }
    PathLtIrreflexive(CategoryKey(x));
    if StrLt(x.family, y.family) && StrLt(y.family, x.family) {
      StrLtTransitive(x.family, y.family, x.family);
      StrLtIrreflexive(x.family);
    }
  }

  /** "Not after" is transitive: the comparator is a strict weak order. */
  lemma NotAfterTransitive(x: Item, y: Item, z: Item)
    requires !ItemLt(y, x) && !ItemLt(z, y)
    ensures !ItemLt(z, x)
  {
    if ItemLt(z, x) {
      if CategoryKey(x) != CategoryKey(y) { PathLtTotal(CategoryKey(x), CategoryKey(y)); }
      if CategoryKey(y) != CategoryKey(z) { PathLtTotal(CategoryKey(y), CategoryKey(z)); }
      if x.family != y.family { StrLtTotal(x.family, y.family); }
      if y.family != z.family { StrLtTotal(y.family, z.family); }
      if PathLt(CategoryKey(z), CategoryKey(x)) {
        if PathLt(CategoryKey(x), CategoryKey(y)) { PathLtTransitive(CategoryKey(z), CategoryKey(x), CategoryKey(y)); }
        if PathLt(CategoryKey(z), CategoryKey(y)) && PathLt(CategoryKey(y), CategoryKey(z)) {
          PathLtTransitive(CategoryKey(z), CategoryKey(y), CategoryKey(z));
          PathLtIrreflexive(CategoryKey(z));
        }
      } else {
        if StrLt(x.family, y.family) { StrLtTransitive(z.family, x.family, y.family); }
        if StrLt(z.family, y.family) && StrLt(y.family, z.family) {
          StrLtTransitive(z.family, y.family, z.family);
          StrLtIrreflexive(z.family);
        }
        if PathLt(CategoryKey(x), CategoryKey(y)) && PathLt(CategoryKey(y), CategoryKey(x)) {
          PathLtTransitive(CategoryKey(x), CategoryKey(y), CategoryKey(x));
          PathLtIrreflexive(CategoryKey(x));
        }
      }
    }
  }

  /** No later element is ordered before an earlier one. */
  ghost predicate Sorted(s: seq<Item>)
  {
    forall i, j :: 0 <= i < j < |s| ==> !ItemLt(s[j], s[i])
  }

  lemma SortedPrepend(x: Item, s: seq<Item>)
    requires Sorted(s) && s != [] && !ItemLt(s[0], x)
    ensures Sorted([x] + s)
  {
    forall j | 0 <= j < |s| ensures !ItemLt(s[j], x) {
      if j > 0 { NotAfterTransitive(x, s[0], s[j]); }
    }
  }

  lemma SortedCons(y: Item, x: Item, rest: seq<Item>, tail: seq<Item>)
    requires Sorted(rest) && ItemLt(y, x)
    requires forall k :: 0 <= k < |tail| ==> !ItemLt(tail[k], y)
    requires multiset(rest) == multiset(tail) + multiset{x}
    ensures Sorted([y] + rest)
  {
    forall j | 0 <= j < |rest| ensures !ItemLt(rest[j], y) {
      assert rest[j] in multiset(rest);
      if rest[j] == x {
        ItemLtAsymmetric(y, x);
      } else {
        assert rest[j] in multiset(tail);
        var k :| 0 <= k < |tail| && tail[k] == rest[j];
      }
    }
  }

  /** Inserts `x` before the first element that does not come before it, so
      that equal elements keep their relative order. */
  function Insert(x: Item, s: seq<Item>): (r: seq<Item>)
    requires Sorted(s)
    ensures multiset(r) == multiset(s) + multiset{x}
    ensures Sorted(r)
  {
    if s == [] then [x]
    else if !ItemLt(s[0], x) then
      SortedPrepend(x, s);
      [x] + s
    else
      var rest := Insert(x, s[1..]);
      assert s == [s[0]] + s[1..];
      SortedCons(s[0], x, rest, s[1..]);
      [s[0]] + rest
  }

  /** `copyAndSort`: a sorted copy of the list. The argument is a value, so
      the caller's list is left as it was. */
  function CopyAndSort(s: seq<Item>): (r: seq<Item>)
    ensures multiset(r) == multiset(s)
    ensures Sorted(r)
  {
    if s == [] then []
    else
      assert s == [s[0]] + s[1..];
      Insert(s[0], CopyAndSort(s[1..]))
  }

  // ---------------------------------------------------------------------
  // Stability

  /** The comparator ties `a` and `b`: same category ignoring case, same
      family. */
  predicate Tied(a: Item, b: Item)
  {
    CategoryKey(a) == CategoryKey(b) && a.family == b.family
  }

  /** The intentions of `s` tied with `k`, in order. */
  function TiedWith(s: seq<Item>, k: Item): seq<Item>
  {
    if s == [] then [] else (if Tied(s[0], k) then [s[0]] else []) + TiedWith(s[1..], k)
  }

  lemma LtNotTied(y: Item, x: Item)
    requires ItemLt(y, x)
    ensures !Tied(y, x)
  {
    PathLtIrreflexive(CategoryKey(x));
    StrLtIrreflexive(x.family);
  }

  lemma TiedWithCons(a: Item, t: seq<Item>, k: Item)
    ensures TiedWith([a] + t, k) == (if Tied(a, k) then [a] else []) + TiedWith(t, k)
  {
    assert ([a] + t)[1..] == t;
  }

  /** Inserting puts `x` after every element ordered before it and before
      every element tied with it. */
  lemma {:induction false} InsertKeepsTies(x: Item, s: seq<Item>, k: Item)
    requires Sorted(s)
    ensures TiedWith(Insert(x, s), k) == (if Tied(x, k) then [x] else []) + TiedWith(s, k)
  {
    if s == [] {
      assert Insert(x, s) == [x] + s;
      TiedWithCons(x, s, k);
    } else if !ItemLt(s[0], x) {
      assert Insert(x, s) == [x] + s;
      TiedWithCons(x, s, k);
    } else {
      var rest := Insert(x, s[1..]);
      assert Insert(x, s) == [s[0]] + rest;
      InsertKeepsTies(x, s[1..], k);
      TiedWithCons(s[0], rest, k);
      assert s == [s[0]] + s[1..];
      TiedWithCons(s[0], s[1..], k);
      if Tied(x, k) {
        LtNotTied(s[0], x);
        assert !Tied(s[0], k);
      }
    }
  }

  /** `copyAndSort` is stable: the intentions the comparator ties keep the
      order they had in the input. */
  lemma {:induction false} CopyAndSortStable(s: seq<Item>, k: Item)
    ensures TiedWith(CopyAndSort(s), k) == TiedWith(s, k)
  {
    if s != [] {
      CopyAndSortStable(s[1..], k);
      InsertKeepsTies(s[0], CopyAndSort(s[1..]), k);
    }
  }
}
