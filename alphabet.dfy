/**
 * Alphabet compression: `PrepareAlphabet` of fast_simple_lcsk/match_maker.cc and its
 * verbatim copy `prepare_alphabet` of util/lcsk_testing.cc.
 */
module Alphabet {
  import opened Text
  import opened Hashing

  /** The distinct characters of s, in order of first occurrence. */
  function FirstOccurrences(s: Str): seq<Byte>
  {
    if |s| == 0 then []
    else
      var d := FirstOccurrences(s[..|s| - 1]);
      if s[|s| - 1] in d then d else d + [s[|s| - 1]]
  }

  predicate Distinct(d: seq<Byte>)
  {
    forall x, y :: 0 <= x < y < |d| ==> d[x] != d[y]
  }

  /** FirstOccurrences lists each character of s exactly once, and nothing else. */
  lemma {:induction false} FirstOccurrencesSpec(s: Str)
    ensures Distinct(FirstOccurrences(s))
    ensures forall c :: c in FirstOccurrences(s) <==> c in s
  {
    if |s| > 0 {
      var s', x := s[..|s| - 1], s[|s| - 1];
      FirstOccurrencesSpec(s');
      assert s == s' + [x];
      var d' := FirstOccurrences(s');
      if x !in d' {
        var d := d' + [x];
        forall i, j | 0 <= i < j < |d| ensures d[i] != d[j] {
          if j == |d'| { assert d[i] == d'[i] && d'[i] in d'; } else { assert d[i] == d'[i] && d[j] == d'[j]; }
        }
        assert FirstOccurrences(s) == d;
      } else {
        assert FirstOccurrences(s) == d';
      }
    }
  }

  /** The position of c in d, or -1 when c does not occur. */
  function IndexOf(d: seq<Byte>, c: Byte): (r: int)
    ensures -1 <= r < |d|
    ensures r == -1 <==> c !in d
    ensures r >= 0 ==> d[r] == c && c !in d[..r]
  {
    if |d| == 0 then -1
    else if d[0] == c then 0
    else
      var r := IndexOf(d[1..], c);
      assert r >= 0 ==> d[1..][..r] == d[1..r + 1];
      if r == -1 then -1 else r + 1
  }

  /** The table gives every character its index in d, and -1 to characters not in d. */
  ghost predicate TableOf(aid: IdTable, d: seq<Byte>)
  {
    forall c: Byte :: Id(aid, c) == IndexOf(d, c)
  }

  lemma IndexOfDistinct(d: seq<Byte>, c: Byte, e: Byte)
    requires Distinct(d)
    requires c in d && IndexOf(d, c) == IndexOf(d, e)
    ensures c == e
  {
  }

  /**
   * `PrepareAlphabet`: ids 0, 1, 2, ... are handed out to the characters of a and
   * then of b, in order of first occurrence; every other byte keeps id -1.
   */
  method PrepareAlphabet(a: Str, b: Str) returns (aid: IdTable, sigma: nat)
    ensures TableOf(aid, FirstOccurrences(a + b))
    ensures sigma == |FirstOccurrences(a + b)|
  {
    aid := seq(256, _ => -1);
    sigma := 0;
    ghost var d: seq<Byte> := [];
    var i := 0;
    while i < |a|
      invariant 0 <= i <= |a|
      invariant d == FirstOccurrences(a[..i])
      invariant TableOf(aid, d) && sigma == |d|
    {
      TableStep(aid, d, a[..i], a[i]);
      assert a[..i + 1] == a[..i] + [a[i]];
      if Id(aid, a[i]) == -1 {
        aid := aid[a[i] as int := sigma];
        sigma := sigma + 1;
        d := d + [a[i]];
      }
      i := i + 1;
    }
    assert a[..i] == a;
    assert b[..0] == [] && a + b[..0] == a;
    var j := 0;
    while j < |b|
      invariant 0 <= j <= |b|
      invariant d == FirstOccurrences(a + b[..j])
      invariant TableOf(aid, d) && sigma == |d|
    {
      ExtendSlice(a, b, j);
      TableStep(aid, d, a + b[..j], b[j]);
      if Id(aid, b[j]) == -1 {
        aid := aid[b[j] as int := sigma];
        sigma := sigma + 1;
        d := d + [b[j]];
      }
      j := j + 1;
    }
    assert b[..j] == b;
  }

  /** One step of either loop of PrepareAlphabet. */
  lemma TableStep(aid: IdTable, d: seq<Byte>, s: Str, x: Byte)
    requires TableOf(aid, d) && d == FirstOccurrences(s)
    ensures Id(aid, x) == -1 ==> FirstOccurrences(s + [x]) == d + [x] && TableOf(aid[x as int := |d|], d + [x])
    ensures Id(aid, x) != -1 ==> FirstOccurrences(s + [x]) == d
  {
    FirstOccurrencesStep(s, x);
    if Id(aid, x) == -1 {
      Assign(aid, d, x);
    }
  }

  lemma ExtendSlice(a: Str, b: Str, j: nat)
    requires j < |b|
    ensures a + b[..j + 1] == (a + b[..j]) + [b[j]]
  {
    assert b[..j + 1] == b[..j] + [b[j]];
  }

  lemma FirstOccurrencesStep(s: Str, x: Byte)
    ensures FirstOccurrences(s + [x])
            == if x in FirstOccurrences(s) then FirstOccurrences(s) else FirstOccurrences(s) + [x]
  {
    assert (s + [x])[..|s + [x]| - 1] == s;
  }

  /** Giving the next id to a character that has none extends the table by that character. */
  lemma Assign(aid: IdTable, d: seq<Byte>, x: Byte)
    requires TableOf(aid, d) && Id(aid, x) == -1
    ensures x !in d
    ensures TableOf(aid[x as int := |d|], d + [x])
  {
    var aid' := aid[x as int := |d|];
    forall c: Byte ensures Id(aid', c) == IndexOf(d + [x], c) {
      if c == x {
        IndexOfLast(d, x);
      } else {
        IndexOfAppend(d, x, c);
      }
    }
  }

  lemma {:induction false} IndexOfLast(d: seq<Byte>, x: Byte)
    requires x !in d
    ensures IndexOf(d + [x], x) == |d|
  {
    if |d| > 0 {
      assert (d + [x])[1..] == d[1..] + [x];
      IndexOfLast(d[1..], x);
    }
  }

  lemma {:induction false} IndexOfAppend(d: seq<Byte>, x: Byte, c: Byte)
    requires c != x
    ensures IndexOf(d + [x], c) == IndexOf(d, c)
  {
    if |d| > 0 {
      if d[0] != c {
        assert (d + [x])[1..] == d[1..] + [x];
        IndexOfAppend(d[1..], x, c);
      }
    } else {
      assert (d + [x])[1..] == [];
    }
  }

  /**
   * What the hashing needs from the table: every character of a and b gets an id
   * in [0, sigma), and different characters get different ids.
   */
  lemma AlphabetIsPerfect(a: Str, b: Str, aid: IdTable, sigma: nat)
    requires TableOf(aid, FirstOccurrences(a + b)) && sigma == |FirstOccurrences(a + b)|
    ensures IdsBelow(aid, a, sigma) && IdsBelow(aid, b, sigma)
    ensures Consistent(aid, a, b) && Consistent(aid, a, a) && Consistent(aid, b, b)
    ensures forall c: Byte :: Id(aid, c) == -1 <==> c !in a + b
  {
    var d := FirstOccurrences(a + b);
    FirstOccurrencesSpec(a + b);
    forall i | 0 <= i < |a| ensures 0 <= Id(aid, a[i]) < sigma {
      assert a[i] == (a + b)[i];
    }
    forall i | 0 <= i < |b| ensures 0 <= Id(aid, b[i]) < sigma {
      assert b[i] == (a + b)[|a| + i];
    }
    forall c: Byte, e: Byte | c in a + b && Id(aid, c) == Id(aid, e) ensures c == e {
      IndexOfDistinct(d, c, e);
    }
    forall i, j | 0 <= i < |a| && 0 <= j < |b| && Id(aid, a[i]) == Id(aid, b[j]) ensures a[i] == b[j] {
      assert a[i] == (a + b)[i];
    }
    forall i, j | 0 <= i < |a| && 0 <= j < |a| && Id(aid, a[i]) == Id(aid, a[j]) ensures a[i] == a[j] {
      assert a[i] == (a + b)[i];
    }
    forall i, j | 0 <= i < |b| && 0 <= j < |b| && Id(aid, b[i]) == Id(aid, b[j]) ensures b[i] == b[j] {
      assert b[i] == (a + b)[|a| + i];
    }
  }
}
