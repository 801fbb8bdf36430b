/** Sort keys made of several columns, compared left to right as SQL's `ORDER BY`
    and pandas' `sort_values` compare them, and a stable insertion sort by such a
    key. */
module Order {
  import opened Text

  /** One column of a sort key: text, an integer, or a missing value, which sorts
      after everything (pandas' `na_position="last"`). */
  datatype Part = TextPart(s: string) | IntPart(i: int) | NullPart

  function Rank(p: Part): nat {
    match p
    case TextPart(_) => 0
    case IntPart(_) => 1
    case NullPart => 2
  }

  predicate PartLess(a: Part, b: Part) {
    if Rank(a) != Rank(b) then Rank(a) < Rank(b)
    else match (a, b)
      case (TextPart(x), TextPart(y)) => Less(x, y)
      case (IntPart(x), IntPart(y)) => x < y
      case _ => false
  }

  lemma PartLessIrreflexive(a: Part)
    ensures !PartLess(a, a)
  {
    if a.TextPart? { LessIrreflexive(a.s); }
  }

  lemma PartLessTransitive(a: Part, b: Part, c: Part)
    requires PartLess(a, b) && PartLess(b, c)
    ensures PartLess(a, c)
  {
    if a.TextPart? && b.TextPart? && c.TextPart? { LessTransitive(a.s, b.s, c.s); }
  }

  lemma PartLessTotal(a: Part, b: Part)
    ensures a == b || PartLess(a, b) || PartLess(b, a)
  {
    if a.TextPart? && b.TextPart? { LessTotal(a.s, b.s); }
  }

  type Key = seq<Part>

  /** Lexicographic order on keys, column by column. */
  predicate KeyLess(a: Key, b: Key) {
    if a == [] then b != []
    else if b == [] then false
    else PartLess(a[0], b[0]) || (a[0] == b[0] && KeyLess(a[1..], b[1..]))
  }

  lemma {:induction false} KeyLessIrreflexive(a: Key)
    ensures !KeyLess(a, a)
  {
    if a != [] {
      PartLessIrreflexive(a[0]);
      KeyLessIrreflexive(a[1..]);
    }
  }

  lemma {:induction false} KeyLessTransitive(a: Key, b: Key, c: Key)
    requires KeyLess(a, b) && KeyLess(b, c)
    ensures KeyLess(a, c)
  {
    if a != [] && b != [] && c != [] {
      if PartLess(a[0], b[0]) && PartLess(b[0], c[0]) {
        PartLessTransitive(a[0], b[0], c[0]);
      } else if a[0] == b[0] && b[0] == c[0] {
        KeyLessTransitive(a[1..], b[1..], c[1..]);
      }
    }
  }

  lemma {:induction false} KeyLessTotal(a: Key, b: Key)
    ensures a == b || KeyLess(a, b) || KeyLess(b, a)
  {
    if a != [] && b != [] {
      PartLessTotal(a[0], b[0]);
      if a[0] == b[0] {
        KeyLessTotal(a[1..], b[1..]);
        if a[1..] == b[1..] {
          assert a == [a[0]] + a[1..] && b == [b[0]] + b[1..];
        }
      }
    }
  }

  lemma KeyLessAsymmetric(a: Key, b: Key)
    requires KeyLess(a, b)
    ensures !KeyLess(b, a)
  {
    if KeyLess(b, a) {
      KeyLessTransitive(a, b, a);
      KeyLessIrreflexive(a);
    }
  }

  /** "Not after" is transitive: the order sorting needs is a total preorder. */
  lemma KeyNotAfterTransitive(a: Key, b: Key, c: Key)
    requires !KeyLess(b, a) && !KeyLess(c, b)
    ensures !KeyLess(c, a)
  {
    KeyLessTotal(a, b);
    KeyLessTotal(b, c);
    if KeyLess(c, a) {
      if KeyLess(a, b) {
        KeyLessTransitive(c, a, b);
        KeyLessAsymmetric(c, b);
      }
    }
  }

  /** No later element sorts before an earlier one. */
  ghost predicate SortedBy<T>(s: seq<T>, key: T -> Key) {
    forall i, j :: 0 <= i < j < |s| ==> !KeyLess(key(s[j]), key(s[i]))
  }

  /** An element no later element sorts before may go in front of a sorted sequence. */
  lemma ConsSorted<T>(y: T, s: seq<T>, key: T -> Key)
    requires SortedBy(s, key)
    requires forall z :: z in s ==> !KeyLess(key(z), key(y))
    ensures SortedBy([y] + s, key)
  {
    forall i, j | 0 <= i < j < |[y] + s| ensures !KeyLess(key(([y] + s)[j]), key(([y] + s)[i])) {
      if i == 0 {
        assert ([y] + s)[j] == s[j - 1];
        assert s[j - 1] in s;
      } else {
        assert ([y] + s)[j] == s[j - 1] && ([y] + s)[i] == s[i - 1];
      }
    }
  }

  lemma NothingBefore<T>(x: T, s: seq<T>, key: T -> Key)
    requires SortedBy(s, key) && s != [] && !KeyLess(key(s[0]), key(x))
    ensures forall z :: z in s ==> !KeyLess(key(z), key(x))
  {
    forall z | z in s ensures !KeyLess(key(z), key(x)) {
      var j :| 0 <= j < |s| && s[j] == z;
      if j > 0 { KeyNotAfterTransitive(key(x), key(s[0]), key(s[j])); }
    }
  }

  lemma NothingBeforeHead<T>(x: T, s: seq<T>, rest: seq<T>, key: T -> Key)
    requires SortedBy(s, key) && s != [] && KeyLess(key(s[0]), key(x))
    requires multiset(rest) == multiset(s[1..]) + multiset{x}
    ensures forall z :: z in rest ==> !KeyLess(key(z), key(s[0]))
  {
    forall z | z in rest ensures !KeyLess(key(z), key(s[0])) {
      assert z in multiset(rest);
      if z == x {
        KeyLessAsymmetric(key(s[0]), key(x));
      } else {
        assert z in multiset(s[1..]);
        var k :| 0 <= k < |s[1..]| && s[1..][k] == z;
        assert s[k + 1] == z;
      }
    }
  }

  /** `x` placed in front of the first element it does not come after. */
  function Insert<T>(x: T, s: seq<T>, key: T -> Key): (r: seq<T>)
    requires SortedBy(s, key)
    ensures SortedBy(r, key)
    ensures multiset(r) == multiset(s) + multiset{x}
  {
    if s == [] then [x]
    else if !KeyLess(key(s[0]), key(x)) then
      NothingBefore(x, s, key);
      ConsSorted(x, s, key);
      [x] + s
    else
      var rest := Insert(x, s[1..], key);
      NothingBeforeHead(x, s, rest, key);
      ConsSorted(s[0], rest, key);
      assert s == [s[0]] + s[1..];
      [s[0]] + rest
  }

  /** Insertion sort by `key`. Elements with equal keys keep their relative
      order. */
  function Sort<T>(s: seq<T>, key: T -> Key): (r: seq<T>)
    ensures SortedBy(r, key)
    ensures multiset(r) == multiset(s)
  {
    if s == [] then []
    else
      assert s == [s[0]] + s[1..];
      Insert(s[0], Sort(s[1..], key), key)
  }

  /** Sorting what is already sorted changes nothing. */
  lemma {:induction false} SortSorted<T>(s: seq<T>, key: T -> Key)
    requires SortedBy(s, key)
    ensures Sort(s, key) == s
  {
    if s != [] {
      SortSorted(s[1..], key);
      assert s == [s[0]] + s[1..];
      if |s| > 1 {
        assert !KeyLess(key(s[1..][0]), key(s[0]));
      }
    }
  }
}
