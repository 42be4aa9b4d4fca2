/**
 Lexicographic order on integer sequences. It is the order of every ordered collection of the
 system: map and set keys (UTF-8 bytes), outbox positions (commit sequence, then event id) and
 due times (time, then record id).
 */
module Order {

  type Key = seq<int>

  predicate Less(a: Key, b: Key) {
    b != [] && (a == [] || a[0] < b[0] || (a[0] == b[0] && Less(a[1..], b[1..])))
  }

  predicate StrictlyAscending(ks: seq<Key>) {
    forall i, j :: 0 <= i < j < |ks| ==> Less(ks[i], ks[j])
  }

  lemma {:induction false} LessIrreflexive(a: Key)
    ensures !Less(a, a)
  {
    if a != [] {
      LessIrreflexive(a[1..]);
    }
  }

  lemma {:induction false} LessTransitive(a: Key, b: Key, c: Key)
    requires Less(a, b) && Less(b, c)
    ensures Less(a, c)
  {
    if a != [] && a[0] == b[0] == c[0] {
      LessTransitive(a[1..], b[1..], c[1..]);
    }
  }

  lemma {:induction false} LessTotal(a: Key, b: Key)
    ensures a == b || Less(a, b) || Less(b, a)
  {
    if a != [] && b != [] && a[0] == b[0] {
      LessTotal(a[1..], b[1..]);
      assert a == [a[0]] + a[1..] && b == [b[0]] + b[1..];
    }
  }

  lemma LessAsymmetric(a: Key, b: Key)
    requires Less(a, b)
    ensures a != b && !Less(b, a)
  {
    LessIrreflexive(a);
    if Less(b, a) {
      LessTransitive(a, b, a);
    }
  }

  predicate IsLeast(s: set<Key>, k: Key) {
    k in s && forall x :: x in s && x != k ==> Less(k, x)
  }

  lemma {:induction false} LeastExists(s: set<Key>)
    requires s != {}
    ensures exists k :: IsLeast(s, k)
    decreases |s|
  {
    var first :| first in s;
    var rest := s - {first};
    if rest == {} {
      assert s == {first};
      assert IsLeast(s, first);
    } else {
      LeastExists(rest);
      var least :| IsLeast(rest, least);
      LessTotal(first, least);
      if Less(first, least) {
        forall x | x in s && x != first ensures Less(first, x) {
          if x != least {
            LessTransitive(first, least, x);
          }
        }
        assert IsLeast(s, first);
      } else {
        assert IsLeast(s, least);
      }
    }
  }

  lemma LeastIsUnique(s: set<Key>)
    ensures forall a, b :: IsLeast(s, a) && IsLeast(s, b) ==> a == b
  {
    forall a, b | IsLeast(s, a) && IsLeast(s, b) ensures a == b {
      if a != b {
        LessAsymmetric(a, b);
      }
    }
  }

  /** The least key of a nonempty set. */
  function Least(s: set<Key>): (k: Key)
    requires s != {}
    ensures k in s && forall x :: x in s && x != k ==> Less(k, x)
  {
    LeastExists(s);
    LeastIsUnique(s);
    var k :| k in s && IsLeast(s, k);
    k
  }

  /** All keys of a set in ascending order: how an ordered map or an ORDER BY clause lists them. */
  function Ascending(s: set<Key>): (ks: seq<Key>)
    ensures StrictlyAscending(ks)
    ensures forall k :: k in ks <==> k in s
    ensures |ks| == |s|
    decreases |s|
  {
    if s == {} then [] else
      var k := Least(s);
      var rest := Ascending(s - {k});
      assert forall i :: 0 <= i < |rest| ==> rest[i] in s - {k};
      [k] + rest
  }

  /** A strictly ascending listing is determined by the set of its elements. */
  lemma {:induction false} ListingUnique(a: seq<Key>, b: seq<Key>)
    requires StrictlyAscending(a) && StrictlyAscending(b)
    requires forall k :: k in a <==> k in b
    ensures a == b
  {
    assert a != [] ==> a[0] in b;
    assert b != [] ==> b[0] in a;
    if a != [] {
      if a[0] != b[0] {
        LessAsymmetric(a[0], b[0]);
      }
      LessIrreflexive(a[0]);
      assert a == [a[0]] + a[1..] && b == [b[0]] + b[1..];
      assert a[0] !in a[1..] && b[0] !in b[1..];
      forall k ensures k in a[1..] <==> k in b[1..] {
        assert k in a[1..] <==> k in a && k != a[0];
        assert k in b[1..] <==> k in b && k != b[0];
      }
      ListingUnique(a[1..], b[1..]);
    }
  }

  /** The `n` least keys of a set, in ascending order: an ORDER BY with a LIMIT. */
  function First(s: set<Key>, n: nat): (ks: seq<Key>)
    ensures forall k :: k in ks ==> k in s
    decreases n
  {
    if n == 0 || s == {} then []
    else
      var least := Least(s);
      [least] + First(s - {least}, n - 1)
  }

  /** They are ascending, as many as there are, and precede all the others. */
  lemma {:induction false} FirstIsOrdered(s: set<Key>, n: nat)
    ensures StrictlyAscending(First(s, n))
    ensures |First(s, n)| == if |s| < n then |s| else n
    ensures forall x, k :: x in s && x !in First(s, n) && k in First(s, n) ==> Less(k, x)
    decreases n
  {
    if n != 0 && s != {} {
      var least := Least(s);
      var rest := First(s - {least}, n - 1);
      FirstIsOrdered(s - {least}, n - 1);
      assert forall i :: 0 <= i < |rest| ==> rest[i] in s - {least};
    }
  }

  /** A listing shorter than the limit has everything. */
  lemma {:induction false} FirstIsAll(s: set<Key>, n: nat)
    ensures |First(s, n)| < n ==> forall k :: k in s ==> k in First(s, n)
    decreases n
  {
    if n != 0 && s != {} {
      FirstIsAll(s - {Least(s)}, n - 1);
    }
  }
}
