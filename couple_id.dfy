/** The couple identifier of src/lib/supabaseClient.js: both user ids are put
    in string order, concatenated with no separator and hashed. The hash is a
    parameter: the model says nothing about SHA-256 beyond its being a function. */
module CoupleIdentity {

  /** The strict order JavaScript's default `sort` uses on two strings,
      character by character, a proper prefix first. Characters here are
      Unicode scalar values; JavaScript compares UTF-16 code units, and the
      two orders differ only on characters outside the Basic Multilingual Plane. */
  predicate Below(x: string, y: string)
  {
    if |x| == 0 then |y| > 0
    else if |y| == 0 then false
    else if x[0] == y[0] then Below(x[1..], y[1..])
    else x[0] < y[0]
  }

  lemma {:induction false} BelowIrreflexive(x: string)
    ensures !Below(x, x)
  {
    if |x| > 0 {
      BelowIrreflexive(x[1..]);
    }
  }

  lemma {:induction false} BelowAsymmetric(x: string, y: string)
    ensures Below(x, y) ==> !Below(y, x)
  {
    if |x| > 0 && |y| > 0 && x[0] == y[0] {
      BelowAsymmetric(x[1..], y[1..]);
    }
  }

  /** Any two different strings are ordered one way or the other. */
  lemma {:induction false} BelowTotal(x: string, y: string)
    ensures x == y || Below(x, y) || Below(y, x)
  {
    if |x| > 0 && |y| > 0 && x[0] == y[0] {
      BelowTotal(x[1..], y[1..]);
      if x[1..] == y[1..] {
        assert x == [x[0]] + x[1..] && y == [y[0]] + y[1..];
      }
    }
  }

  /** `[userId, partnerId].sort()`: the sort is stable, so the pair is swapped
      only when the second id is strictly below the first. */
  function SortedPair(userId: string, partnerId: string): (p: (string, string))
    ensures multiset{p.0, p.1} == multiset{userId, partnerId}
    ensures !Below(p.1, p.0)
  {
    if Below(partnerId, userId) then
      BelowAsymmetric(partnerId, userId);
      (partnerId, userId)
    else
      (userId, partnerId)
  }

  /** The string that is hashed: the smaller id followed by the larger. */
  function HashInput(userId: string, partnerId: string): (s: string)
    ensures (s == userId + partnerId && !Below(partnerId, userId))
         || (s == partnerId + userId && !Below(userId, partnerId))
  {
    var p := SortedPair(userId, partnerId);
    p.0 + p.1
  }

  /** `generateCoupleId(userId, partnerId)` for a given hash function. */
  function CoupleId<D>(hash: string -> D, userId: string, partnerId: string): (d: D)
    ensures !Below(partnerId, userId) ==> d == hash(userId + partnerId)
    ensures Below(partnerId, userId) ==> d == hash(partnerId + userId)
  {
    hash(HashInput(userId, partnerId))
  }

  /** Both partners compute the same identifier, whoever calls first. */
  lemma CoupleIdSymmetric<D>(hash: string -> D, a: string, b: string)
    ensures CoupleId(hash, a, b) == CoupleId(hash, b, a)
  {
    BelowTotal(a, b);
    BelowAsymmetric(a, b);
  }

  /** The identifier depends on the unordered pair of ids and nothing else. */
  lemma CoupleIdOfSamePair<D>(hash: string -> D, a: string, b: string, c: string, d: string)
    requires multiset{a, b} == multiset{c, d}
    ensures CoupleId(hash, a, b) == CoupleId(hash, c, d)
  {
    if a == c {
      assert multiset{a, b} - multiset{a} == multiset{b};
      assert multiset{c, d} - multiset{c} == multiset{d};
      assert b == d;
    } else {
      assert a in multiset{c, d};
      assert a == d;
      assert multiset{a, b} - multiset{a} == multiset{b};
      assert multiset{c, d} - multiset{d} == multiset{c};
      assert b == c;
      CoupleIdSymmetric(hash, c, d);
    }
  }

  /** With no separator between the ids, two different couples hash the same
      string, so they share an identifier under every hash function. */
  lemma ConcatenationCollision<D>(hash: string -> D)
    ensures multiset{"a", "bc"} != multiset{"ab", "c"}
    ensures HashInput("a", "bc") == HashInput("ab", "c") == "abc"
    ensures CoupleId(hash, "a", "bc") == CoupleId(hash, "ab", "c")
  {
    assert Below("a", "bc");
    assert Below("ab", "c");
    assert "a" !in multiset{"ab", "c"};
  }
}
