/**
 * The `stats_fasta` experiment (experiment/stats_fasta.cc): reads a FASTA file,
 * keeps only the bases A, C, G, T of all its records, counts the ordered pairs of
 * equal k-mers, and runs the fast LCSk on the text against itself. Its assertion
 * says the fast algorithm creates one `MatchPair` per k-match plus one sentinel.
 */
module StatsFasta {
  import opened Text
  import opened Hashing
  import opened MatchMaking
  import opened Counting
  import opened Alignment
  import opened FastLcsk
  import opened FastSweep
  import opened Optimum

  // ---------------------------------------------------------------------------
  // The base alphabet (lines 35-39)
  // ---------------------------------------------------------------------------

  predicate IsBase(c: Byte)
  {
    c == 'A' || c == 'C' || c == 'G' || c == 'T'
  }

  predicate AllBases(s: Str)
  {
    forall i :: 0 <= i < |s| ==> IsBase(s[i])
  }

  /**
   * `char_to_id`: A, C, T, G get the ids 0, 1, 2, 3; every other byte keeps the
   * zero the table is created with, so it shares its id with A.
   */
  function BaseIds(): IdTable
  {
    seq(256, c => if c == 'A' as int then 0 else if c == 'C' as int then 1
                  else if c == 'T' as int then 2 else if c == 'G' as int then 3 else 0)
  }

  /** Every byte gets an id below the alphabet size 4. */
  lemma BaseIdsBelow(s: Str)
    ensures IdsBelow(BaseIds(), s, 4)
  {
    forall i | 0 <= i < |s| ensures 0 <= Id(BaseIds(), s[i]) < 4 {
      assert BaseIds()[s[i] as int] in {0, 1, 2, 3};
    }
  }

  /** On texts of bases only, equal ids mean equal characters, so the hash is perfect. */
  lemma BaseIdsConsistent(u: Str, v: Str)
    requires AllBases(u) && AllBases(v)
    ensures Consistent(BaseIds(), u, v)
  {
    forall i, j | 0 <= i < |u| && 0 <= j < |v| && Id(BaseIds(), u[i]) == Id(BaseIds(), v[j])
      ensures u[i] == v[j]
    {
      assert IsBase(u[i]) && IsBase(v[j]);
    }
  }

  /** A byte outside the alphabet collides with A: the table alone does not make the hash perfect. */
  lemma OtherBytesCollide(c: Byte)
    requires !IsBase(c)
    ensures Id(BaseIds(), c) == Id(BaseIds(), 'A') && c != 'A'
  {
  }

  // ---------------------------------------------------------------------------
  // Counting the pairs of equal k-mers (lines 34-52)
  // ---------------------------------------------------------------------------

  /** The hash under `BaseIds()` of the k-window of s at x. */
  function KmerHash(s: Str, k: nat, x: nat): int
    requires x + k <= |s|
  {
    WindowHash(BaseIds(), 4, s, x, k)
  }

  /** How many of the first n windows of s hash to h (the size of its bucket). */
  function Multiplicity(s: Str, k: nat, h: int, n: nat): nat
    requires n <= WindowCount(s, k)
  {
    |BucketUpTo(BaseIds(), 4, s, k, h, n)|
  }

  /** The number of ordered pairs (x, y), x < n and y < m, of windows with equal hashes. */
  function EqualHashPairs(s: Str, k: nat, n: nat, m: nat): nat
    requires n <= WindowCount(s, k) && m <= WindowCount(s, k)
  {
    if n == 0 then 0 else EqualHashPairs(s, k, n - 1, m) + Multiplicity(s, k, KmerHash(s, k, n - 1), m)
  }

  /** `kmer_counts[hash]`, zero for a hash never seen. */
  function Tally(m: map<int, nat>, h: int): nat
  {
    if h in m then m[h] else 0
  }

  /** A set that is not empty has an element. */
  lemma Inhabited(keys: set<int>)
    ensures keys == {} || exists x :: x in keys
  {
    if forall x :: x !in keys {
      assert keys == {};
    }
  }

  ghost function Pick(keys: set<int>): int
    requires keys != {}
  {
    Inhabited(keys);
    var h :| h in keys; h
  }

  /** The sum of the squared counts of the given keys of m. */
  ghost function SumSquares(m: map<int, nat>, keys: set<int>): nat
    requires keys <= m.Keys
    decreases keys
  {
    if keys == {} then 0
    else var h := Pick(keys); m[h] * m[h] + SumSquares(m, keys - {h})
  }

  /** The sum of squares does not depend on which key is taken out first. */
  lemma {:induction false} SumSquaresRemove(m: map<int, nat>, keys: set<int>, h: int)
    requires keys <= m.Keys && h in keys
    ensures SumSquares(m, keys) == m[h] * m[h] + SumSquares(m, keys - {h})
    decreases keys
  {
    var p := Pick(keys);
    if p != h {
      SumSquaresRemove(m, keys - {p}, h);
      assert keys - {p} - {h} == keys - {h} - {p};
      SumSquaresRemove(m, keys - {h}, p);
    }
  }

  /** Two maps that agree on the keys have the same sum of squares over them. */
  lemma {:induction false} SumSquaresAgree(m: map<int, nat>, m': map<int, nat>, keys: set<int>)
    requires keys <= m.Keys && keys <= m'.Keys
    requires forall h :: h in keys ==> m[h] == m'[h]
    ensures SumSquares(m, keys) == SumSquares(m', keys)
    decreases keys
  {
    if keys != {} {
      var p := Pick(keys);
      SumSquaresAgree(m, m', keys - {p});
    }
  }

  /** `++kmer_counts[hash]` raises the sum of squares by 2c + 1, for the old count c. */
  lemma SumSquaresBump(m: map<int, nat>, h: int)
    ensures SumSquares(m[h := Tally(m, h) + 1], m.Keys + {h}) == SumSquares(m, m.Keys) + 2 * Tally(m, h) + 1
  {
    var m' := m[h := Tally(m, h) + 1];
    var c := Tally(m, h);
    assert m'.Keys == m.Keys + {h};
    SumSquaresRemove(m', m'.Keys, h);
    assert m'.Keys - {h} == m.Keys - {h};
    SumSquaresAgree(m, m', m.Keys - {h});
    if h in m {
      SumSquaresRemove(m, m.Keys, h);
    } else {
      assert m.Keys - {h} == m.Keys;
    }
    SquareStep(c);
  }

  lemma SquareStep(c: int)
    ensures (c + 1) * (c + 1) == c * c + 2 * c + 1
  {
  }

  /** One more window counts once more for every equal earlier window. */
  lemma {:induction false} MultiplicityStep(s: Str, k: nat, h: int, n: nat)
    requires n < WindowCount(s, k)
    ensures Multiplicity(s, k, h, n + 1) == Multiplicity(s, k, h, n) + (if KmerHash(s, k, n) == h then 1 else 0)
  {
  }

  /** Adding a column m to the pairs counted. */
  lemma {:induction false} PairsAddColumn(s: Str, k: nat, n: nat, m: nat)
    requires n <= WindowCount(s, k) && m < WindowCount(s, k)
    ensures EqualHashPairs(s, k, n, m + 1) == EqualHashPairs(s, k, n, m) + Multiplicity(s, k, KmerHash(s, k, m), n)
  {
    if n > 0 {
      PairsAddColumn(s, k, n - 1, m);
      MultiplicityStep(s, k, KmerHash(s, k, n - 1), m);
      MultiplicityStep(s, k, KmerHash(s, k, m), n - 1);
    }
  }

  /**
   * One more window n adds its pairs with the n earlier windows in both orders,
   * and the pair with itself: 2 * (count so far) + 1.
   */
  lemma PairsStep(s: Str, k: nat, n: nat)
    requires n < WindowCount(s, k)
    ensures EqualHashPairs(s, k, n + 1, n + 1)
            == EqualHashPairs(s, k, n, n) + 2 * Multiplicity(s, k, KmerHash(s, k, n), n) + 1
  {
    PairsAddColumn(s, k, n, n);
    MultiplicityStep(s, k, KmerHash(s, k, n), n);
  }

  /** On a text of bases, pairs of equal hashes are pairs of equal windows, row by row. */
  lemma {:induction false} PairsAreMatches(s: Str, k: nat, n: nat)
    requires AllBases(s) && n <= WindowCount(s, k)
    ensures EqualHashPairs(s, k, n, WindowCount(s, k)) == TotalMatches(s, s, k, n)
  {
    if n > 0 {
      PairsAreMatches(s, k, n - 1);
      BaseIdsBelow(s);
      BaseIdsConsistent(s, s);
      BucketIsMatches(BaseIds(), 4, s, n - 1, s, k, WindowCount(s, k));
    }
  }

  /** Rows without a window hold no matches. */
  lemma {:induction false} TotalMatchesTail(s: Str, k: nat, n: nat)
    requires WindowCount(s, k) <= n
    ensures TotalMatches(s, s, k, n) == TotalMatches(s, s, k, WindowCount(s, k))
  {
    if n > WindowCount(s, k) {
      TotalMatchesTail(s, k, n - 1);
      RowMatchesEmpty(s, s, k, n - 1);
    }
  }

  /**
   * `CountMatchPairs`: counts the windows of each hash in a map, then sums the
   * squared counts over the map in whatever order it yields its keys. The result is
   * the number of ordered pairs of windows with equal hashes; on a text of bases it
   * is the number of k-matches of s against itself.
   */
  method CountMatchPairs(s: Str, k: nat) returns (numMatchPairs: nat)
    requires k >= 1
    ensures numMatchPairs == EqualHashPairs(s, k, WindowCount(s, k), WindowCount(s, k))
    ensures AllBases(s) ==> numMatchPairs == TotalMatches(s, s, k, |s| + 1)
  {
    var kmerCounts := CountKmers(s, k);
    numMatchPairs := SumOfSquares(kmerCounts);
    if AllBases(s) {
      PairsAreMatches(s, k, WindowCount(s, k));
      TotalMatchesTail(s, k, |s| + 1);
    }
  }

  /** Lines 40-46: `kmer_counts[h]` ends up as the number of windows of s hashing to h. */
  method CountKmers(s: Str, k: nat) returns (kmerCounts: map<int, nat>)
    requires k >= 1
    ensures forall h :: Tally(kmerCounts, h) == Multiplicity(s, k, h, WindowCount(s, k))
    ensures SumSquares(kmerCounts, kmerCounts.Keys) == EqualHashPairs(s, k, WindowCount(s, k), WindowCount(s, k))
  {
    BaseIdsBelow(s);
    var hasher := new RollingHasher(s, k, BaseIds(), 4);
    kmerCounts := map[];
    var hash: nat := 0xFFFF_FFFF_FFFF_FFFF;
    var ok;
    while true
      invariant hasher.Valid() && hasher.s == s && hasher.k == k && hasher.ids == BaseIds() && hasher.sigma == 4
      invariant hasher.col <= WindowCount(s, k)
      invariant forall h :: Tally(kmerCounts, h) == Multiplicity(s, k, h, hasher.col)
      invariant SumSquares(kmerCounts, kmerCounts.Keys) == EqualHashPairs(s, k, hasher.col, hasher.col)
      decreases |s| + 1 - hasher.col
    {
      ghost var n := hasher.col;
      ok, hash := hasher.Next(hash);
      if !ok {
        break;
      }
      CountStep(s, k, kmerCounts, n);
      kmerCounts := kmerCounts[hash := Tally(kmerCounts, hash) + 1];
    }
  }

  /** `++kmer_counts[hash]` for the window at n keeps the counts and their sum of squares. */
  lemma CountStep(s: Str, k: nat, m: map<int, nat>, n: nat)
    requires n < WindowCount(s, k)
    requires forall h :: Tally(m, h) == Multiplicity(s, k, h, n)
    requires SumSquares(m, m.Keys) == EqualHashPairs(s, k, n, n)
    ensures var h0 := KmerHash(s, k, n); var m' := m[h0 := Tally(m, h0) + 1];
      && (forall h :: Tally(m', h) == Multiplicity(s, k, h, n + 1))
      && SumSquares(m', m'.Keys) == EqualHashPairs(s, k, n + 1, n + 1)
  {
    var h0 := KmerHash(s, k, n);
    var m' := m[h0 := Tally(m, h0) + 1];
    SumSquaresBump(m, h0);
    PairsStep(s, k, n);
    assert m'.Keys == m.Keys + {h0};
    forall h ensures Tally(m', h) == Multiplicity(s, k, h, n + 1) {
      MultiplicityStep(s, k, h, n);
    }
  }

  /** Lines 47-50: the squared counts, summed in whatever order the map yields them. */
  method SumOfSquares(kmerCounts: map<int, nat>) returns (numMatchPairs: nat)
    ensures numMatchPairs == SumSquares(kmerCounts, kmerCounts.Keys)
  {
    ghost var all := kmerCounts.Keys;
    numMatchPairs := 0;
    var keys := kmerCounts.Keys;
    while keys != {}
      invariant keys <= all
      invariant numMatchPairs + SumSquares(kmerCounts, keys) == SumSquares(kmerCounts, all)
      decreases keys
    {
      Inhabited(keys);
      var h :| h in keys;
      SumSquaresRemove(kmerCounts, keys, h);
      numMatchPairs := numMatchPairs + kmerCounts[h] * kmerCounts[h];
      keys := keys - {h};
    }
  }

  // ---------------------------------------------------------------------------
  // Assembling the records of a FASTA file (lines 66-85)
  // ---------------------------------------------------------------------------

  /** A line starting with '>' opens a record. */
  predicate IsHeader(line: Str)
  {
    |line| > 0 && line[0] == '>'
  }

  /** A line that is neither empty, nor a header, nor a ',' line: its text is sequence data. */
  predicate IsData(line: Str)
  {
    |line| > 0 && line[0] != '>' && line[0] != ','
  }

  /** The data lines among ls[lo..hi], concatenated in order. */
  function DataOf(ls: seq<Str>, lo: nat, hi: nat): Str
    requires lo <= hi <= |ls|
    decreases hi - lo
  {
    if lo == hi then [] else DataOf(ls, lo, hi - 1) + (if IsData(ls[hi - 1]) then ls[hi - 1] else [])
  }

  /** The index of the first header among ls[lo..hi], or hi when there is none. */
  function FirstHeader(ls: seq<Str>, lo: nat, hi: nat): (r: nat)
    requires lo <= hi <= |ls|
    ensures lo <= r <= hi
    decreases hi - lo
  {
    if lo == hi then hi else if IsHeader(ls[lo]) then lo else FirstHeader(ls, lo + 1, hi)
  }

  /** `FirstHeader` finds a header, and no line before it is one. */
  lemma {:induction false} FirstHeaderSpec(ls: seq<Str>, lo: nat, hi: nat)
    requires lo <= hi <= |ls|
    ensures FirstHeader(ls, lo, hi) < hi ==> IsHeader(ls[FirstHeader(ls, lo, hi)])
    ensures forall x :: lo <= x < FirstHeader(ls, lo, hi) ==> !IsHeader(ls[x])
    decreases hi - lo
  {
    if lo < hi && !IsHeader(ls[lo]) {
      FirstHeaderSpec(ls, lo + 1, hi);
    }
  }

  /** The number of headers among ls[lo..hi]. */
  function HeaderCount(ls: seq<Str>, lo: nat, hi: nat): nat
    requires lo <= hi <= |ls|
    decreases hi - lo
  {
    if lo == hi then 0 else HeaderCount(ls, lo, hi - 1) + (if IsHeader(ls[hi - 1]) then 1 else 0)
  }

  /** The records of ls[lo..hi], the lines that follow a header: each header starts a new record. */
  function Sections(ls: seq<Str>, lo: nat, hi: nat): (r: seq<Str>)
    requires lo <= hi <= |ls|
    ensures |r| > 0
    decreases hi - lo
  {
    var h := FirstHeader(ls, lo, hi);
    if h == hi then [DataOf(ls, lo, hi)]
    else [DataOf(ls, lo, h)] + Sections(ls, h + 1, hi)
  }

  /**
   * The records of a FASTA file: with no header, all its data is one record;
   * otherwise the data before the first header is dropped and every header opens a
   * record holding the data up to the next one.
   */
  function Records(lines: seq<Str>): seq<Str>
  {
    var h := FirstHeader(lines, 0, |lines|);
    if h == |lines| then [DataOf(lines, 0, |lines|)] else Sections(lines, h + 1, |lines|)
  }

  /** Headers counted over [lo, m) and [m, hi) add up. */
  lemma {:induction false} HeaderCountSplit(ls: seq<Str>, lo: nat, m: nat, hi: nat)
    requires lo <= m <= hi <= |ls|
    ensures HeaderCount(ls, lo, hi) == HeaderCount(ls, lo, m) + HeaderCount(ls, m, hi)
    decreases hi - m
  {
    if m < hi {
      HeaderCountSplit(ls, lo, m, hi - 1);
    }
  }

  /** A range without a header line counts no header. */
  lemma {:induction false} NoHeaderCount(ls: seq<Str>, lo: nat, hi: nat)
    requires lo <= hi <= |ls|
    requires forall x :: lo <= x < hi ==> !IsHeader(ls[x])
    ensures HeaderCount(ls, lo, hi) == 0
    decreases hi - lo
  {
    if lo < hi {
      NoHeaderCount(ls, lo, hi - 1);
    }
  }

  /** Without a first header there is no header; with one, the rest come after it. */
  lemma HeaderCountAtFirst(ls: seq<Str>, lo: nat, hi: nat)
    requires lo <= hi <= |ls|
    ensures FirstHeader(ls, lo, hi) == hi ==> HeaderCount(ls, lo, hi) == 0
    ensures FirstHeader(ls, lo, hi) < hi ==>
      HeaderCount(ls, lo, hi) == HeaderCount(ls, FirstHeader(ls, lo, hi) + 1, hi) + 1
  {
    var h := FirstHeader(ls, lo, hi);
    FirstHeaderSpec(ls, lo, hi);
    NoHeaderCount(ls, lo, h);
    if h < hi {
      HeaderCountSplit(ls, lo, h, hi);
      HeaderCountSplit(ls, h, h + 1, hi);
      assert HeaderCount(ls, h, h + 1) == 1;
    }
  }

  /** After a header, one record for the text before the next header and one per header. */
  lemma {:induction false} SectionsCount(ls: seq<Str>, lo: nat, hi: nat)
    requires lo <= hi <= |ls|
    ensures |Sections(ls, lo, hi)| == HeaderCount(ls, lo, hi) + 1
    decreases hi - lo
  {
    var h := FirstHeader(ls, lo, hi);
    HeaderCountAtFirst(ls, lo, hi);
    if h < hi {
      SectionsCount(ls, h + 1, hi);
    }
  }

  /** A file has one record per header, and one record when it has no header. */
  lemma RecordsCount(lines: seq<Str>)
    ensures |Records(lines)| == if HeaderCount(lines, 0, |lines|) == 0 then 1 else HeaderCount(lines, 0, |lines|)
  {
    var h := FirstHeader(lines, 0, |lines|);
    HeaderCountAtFirst(lines, 0, |lines|);
    if h < |lines| {
      SectionsCount(lines, h + 1, |lines|);
    }
  }

  /** A header within ls[lo..hi] stays the first one when the range grows by a line. */
  lemma {:induction false} FirstHeaderSnoc(ls: seq<Str>, lo: nat, hi: nat)
    requires lo <= hi < |ls|
    ensures FirstHeader(ls, lo, hi) < hi ==> FirstHeader(ls, lo, hi + 1) == FirstHeader(ls, lo, hi)
    ensures FirstHeader(ls, lo, hi) == hi ==> FirstHeader(ls, lo, hi + 1) == if IsHeader(ls[hi]) then hi else hi + 1
    decreases hi - lo
  {
    if lo < hi && !IsHeader(ls[lo]) {
      FirstHeaderSnoc(ls, lo + 1, hi);
    }
  }

  /** ss with its last record extended by t. */
  function ExtendLast(ss: seq<Str>, t: Str): (r: seq<Str>)
    requires |ss| > 0
    ensures |r| == |ss|
  {
    ss[..|ss| - 1] + [ss[|ss| - 1] + t]
  }

  lemma ExtendLastCons(d: Str, ss: seq<Str>, t: Str)
    requires |ss| > 0
    ensures ExtendLast([d] + ss, t) == [d] + ExtendLast(ss, t)
  {
    assert ([d] + ss)[..|ss|] == [d] + ss[..|ss| - 1];
  }

  /** A header line at hi, after a header: it opens an empty record. */
  lemma {:induction false} SectionsSnocHeader(ls: seq<Str>, lo: nat, hi: nat)
    requires lo <= hi < |ls| && IsHeader(ls[hi])
    ensures Sections(ls, lo, hi + 1) == Sections(ls, lo, hi) + [[]]
    decreases hi - lo
  {
    var h := FirstHeader(ls, lo, hi);
    FirstHeaderSnoc(ls, lo, hi);
    if h == hi {
      assert Sections(ls, hi + 1, hi + 1) == [[]];
    } else {
      SectionsSnocHeader(ls, h + 1, hi);
    }
  }

  /** Any other line at hi, after a header: it extends the last record by its data. */
  lemma {:induction false} SectionsSnocLine(ls: seq<Str>, lo: nat, hi: nat)
    requires lo <= hi < |ls| && !IsHeader(ls[hi])
    ensures Sections(ls, lo, hi + 1) == ExtendLast(Sections(ls, lo, hi), if IsData(ls[hi]) then ls[hi] else [])
    decreases hi - lo
  {
    var h := FirstHeader(ls, lo, hi);
    FirstHeaderSnoc(ls, lo, hi);
    var t: Str := if IsData(ls[hi]) then ls[hi] else [];
    if h == hi {
      assert ExtendLast([DataOf(ls, lo, hi)], t) == [DataOf(ls, lo, hi) + t];
    } else {
      SectionsSnocLine(ls, h + 1, hi);
      ExtendLastCons(DataOf(ls, lo, h), Sections(ls, h + 1, hi), t);
    }
  }

  /**
   * The assembly loop of `main` (lines 66-85): empty and ',' lines are skipped, a
   * '>' line pushes the current record unless it is the first header and starts a
   * new one, any other line is appended to the current record, and the last record
   * is always pushed.
   */
  method AssembleSequences(lines: seq<Str>) returns (sequences: seq<Str>)
    ensures sequences == Records(lines)
  {
    sequences := [];
    var currentSeq: Str := [];
    var first := true;
    ghost var h := FirstHeader(lines, 0, |lines|);
    FirstHeaderSpec(lines, 0, |lines|);
    var p := 0;
    while p < |lines|
      invariant 0 <= p <= |lines|
      invariant first <==> p <= h
      invariant first ==> sequences == [] && currentSeq == DataOf(lines, 0, p)
      invariant !first ==> sequences + [currentSeq] == Sections(lines, h + 1, p)
    {
      var line := lines[p];
      if !first {
        if IsHeader(line) {
          SectionsSnocHeader(lines, h + 1, p);
        } else {
          SectionsSnocLine(lines, h + 1, p);
        }
      }
      if |line| == 0 {
        assert currentSeq + [] == currentSeq;
        p := p + 1;
        continue;
      }
      if line[0] == '>' {
        if !first {
          sequences := sequences + [currentSeq];
        } else {
          assert Sections(lines, p + 1, p + 1) == [[]];
        }
        currentSeq := [];
        first := false;
      } else if line[0] == ',' {
        assert currentSeq + [] == currentSeq;
        p := p + 1;
        continue;
      } else {
        assert ExtendLast(sequences + [currentSeq], line) == sequences + [currentSeq + line];
        currentSeq := currentSeq + line;
      }
      p := p + 1;
    }
    sequences := sequences + [currentSeq];
  }

  // ---------------------------------------------------------------------------
  // Keeping the bases (lines 87-92)
  // ---------------------------------------------------------------------------

  /** The first n records one after the other. */
  function Flatten(ss: seq<Str>, n: nat): Str
    requires n <= |ss|
  {
    if n == 0 then [] else Flatten(ss, n - 1) + ss[n - 1]
  }

  /** The bases among the first n characters of s, in their order in s. */
  function BasesOf(s: Str, n: nat): (r: Str)
    requires n <= |s|
    ensures AllBases(r) && |r| <= n
  {
    if n == 0 then [] else BasesOf(s, n - 1) + (if IsBase(s[n - 1]) then [s[n - 1]] else [])
  }

  /** The bases of s, in their order in s. */
  function OnlyBases(s: Str): (r: Str)
    ensures AllBases(r) && |r| <= |s|
  {
    BasesOf(s, |s|)
  }

  /** Each base occurs among the bases of s[..n] as often as in s[..n]; nothing else occurs. */
  lemma {:induction false} BasesOfCounts(s: Str, n: nat)
    requires n <= |s|
    ensures forall c :: IsBase(c) ==> multiset(BasesOf(s, n))[c] == multiset(s[..n])[c]
    ensures forall c :: !IsBase(c) ==> multiset(BasesOf(s, n))[c] == 0
  {
    if n > 0 {
      BasesOfCounts(s, n - 1);
      assert s[..n] == s[..n - 1] + [s[n - 1]];
    }
  }

  /** Each base occurs in the filtered text as often as in s; nothing else occurs. */
  lemma OnlyBasesCounts(s: Str)
    ensures forall c :: IsBase(c) ==> multiset(OnlyBases(s))[c] == multiset(s)[c]
    ensures forall c :: !IsBase(c) ==> multiset(OnlyBases(s))[c] == 0
  {
    BasesOfCounts(s, |s|);
    assert s[..|s|] == s;
  }

  /** Texts that agree on their first n characters have the same bases there. */
  lemma {:induction false} BasesOfAgree(s: Str, t: Str, n: nat)
    requires n <= |s| && n <= |t|
    requires forall i :: 0 <= i < n ==> s[i] == t[i]
    ensures BasesOf(s, n) == BasesOf(t, n)
  {
    if n > 0 {
      BasesOfAgree(s, t, n - 1);
    }
  }

  /** The bases of u + v up to |u| + n: those of u, then those of v up to n. */
  lemma {:induction false} BasesOfAppend(u: Str, v: Str, n: nat)
    requires n <= |v|
    ensures BasesOf(u + v, |u| + n) == BasesOf(u, |u|) + BasesOf(v, n)
  {
    if n == 0 {
      BasesOfAgree(u + v, u, |u|);
    } else {
      BasesOfAppend(u, v, n - 1);
      assert (u + v)[|u| + n - 1] == v[n - 1];
    }
  }

  /** Filtering distributes over concatenation. */
  lemma OnlyBasesAppend(u: Str, v: Str)
    ensures OnlyBases(u + v) == OnlyBases(u) + OnlyBases(v)
  {
    BasesOfAppend(u, v, |v|);
  }

  /** A text of bases is left as it is. */
  lemma {:induction false} BasesOfKeeps(s: Str, n: nat)
    requires n <= |s| && AllBases(s)
    ensures BasesOf(s, n) == s[..n]
  {
    if n > 0 {
      BasesOfKeeps(s, n - 1);
      assert s[..n] == s[..n - 1] + [s[n - 1]];
    }
  }

  /** A text of bases is left as it is. */
  lemma OnlyBasesKeeps(s: Str)
    requires AllBases(s)
    ensures OnlyBases(s) == s
  {
    BasesOfKeeps(s, |s|);
    assert s[..|s|] == s;
  }

  /** The filter loop of `main`: every base of every record, in order, goes into `input`. */
  method FilterBases(sequences: seq<Str>) returns (input: Str)
    ensures input == OnlyBases(Flatten(sequences, |sequences|))
  {
    input := [];
    var i := 0;
    while i < |sequences|
      invariant 0 <= i <= |sequences|
      invariant input == OnlyBases(Flatten(sequences, i))
    {
      var sequence := sequences[i];
      var j := 0;
      ghost var before := input;
      while j < |sequence|
        invariant 0 <= j <= |sequence|
        invariant input == before + BasesOf(sequence, j)
      {
        var c := sequence[j];
        if c == 'A' || c == 'G' || c == 'T' || c == 'C' {
          input := input + [c];
        }
        j := j + 1;
      }
      OnlyBasesAppend(Flatten(sequences, i), sequence);
      i := i + 1;
    }
  }

  // ---------------------------------------------------------------------------
  // The experiment (lines 55-111)
  // ---------------------------------------------------------------------------

  /** The text the experiment runs on: the bases of all records of the file, in order. */
  function FastaText(lines: seq<Str>): Str
  {
    OnlyBases(Flatten(Records(lines), |Records(lines)|))
  }

  /**
   * `main` on the lines of the FASTA file, with the `MatchPair` counters fresh:
   * returns the text's length, the LCSk length (the best score of the text against
   * itself) and the number of equal-k-mer pairs,
   * and the pairs counted plus the sentinel are exactly the `MatchPair`s created.
   */
  method StatsFasta(lines: seq<Str>, k: nat, useAmortized: (nat, nat) -> bool, counter: ObjectCounter)
    returns (n: nat, length: nat, numMatchPairs: nat)
    requires k >= 1 && counter.Valid() && counter.created == 0
    modifies counter
    ensures n == |FastaText(lines)|
    ensures numMatchPairs == TotalMatches(FastaText(lines), FastaText(lines), k, n + 1)
    ensures numMatchPairs + 1 == counter.created
    ensures length % k == 0 && length <= n
    ensures length == Best(FastaText(lines), FastaText(lines), k, false)
  {
    var sequences := AssembleSequences(lines);
    var input := FilterBases(sequences);
    n := |input|;
    numMatchPairs := CountMatchPairs(input, k);
    var recon := LcsKSparseFast(input, input, k, useAmortized, counter);
    assert numMatchPairs + 1 == counter.created;
    AlignmentLength(input, input, k, false, recon);
    length := |recon|;
  }
}
