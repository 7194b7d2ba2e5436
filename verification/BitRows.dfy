/**
 Node sets as rows of 64-bit words. A word is its 64 bits, least significant first, so that the
 machine's `|`, `&` and `!` are the bitwise connectives.
 */
module BitRows {
  import opened Graphs

  const WORD: nat := 64


  type Word = w: seq<bool> | |w| == WORD witness seq(WORD, _ => false)
  type Row = seq<Word>

  const ZERO: Word := seq(WORD, _ => false)

  function OneBit(k: nat): (w: Word)
    requires k < WORD
  {
    seq(WORD, i => i == k)
  }

  function Or(a: Word, b: Word): (w: Word) {
    seq(WORD, i requires 0 <= i < WORD => a[i] || b[i])
  }

  function And(a: Word, b: Word): (w: Word) {
    seq(WORD, i requires 0 <= i < WORD => a[i] && b[i])
  }

  function Not(a: Word): (w: Word) {
    seq(WORD, i requires 0 <= i < WORD => !a[i])
  }

  function WordCount(n: nat): (r: nat) {
    (n + WORD - 1) / WORD
  }

  function ZeroRow(n: nat): (row: Row) {
    seq(WordCount(n), _ => ZERO)
  }

  predicate Has(row: Row, i: nat) {
    i / WORD < |row| && row[i / WORD][i % WORD]
  }

  /** The node set a row stands for. */
  ghost function Members(row: Row): (s: set<nat>)
    ensures forall i: nat :: i in s <==> Has(row, i)
  {
    set i: nat | i in Range(WORD * |row|) && Has(row, i)
  }

  lemma EnoughWords(n: nat, i: nat)
    requires i < n
    ensures i / WORD < WordCount(n)
  {
  }

  lemma ZeroRowIsEmpty(n: nat)
    ensures Members(ZeroRow(n)) == {}
  {
  }

  /** Set one bit in place. */
  method BitSet(bits: array<Word>, index: nat)
    requires index / WORD < bits.Length
    modifies bits
    ensures Members(bits[..]) == Members(old(bits[..])) + {index}
  {
    ghost var before := bits[..];
    bits[index / WORD] := Or(bits[index / WORD], OneBit(index % WORD));
    forall i: nat ensures Has(bits[..], i) <==> Has(before, i) || i == index {
      if i / WORD == index / WORD && i % WORD == index % WORD {
        assert i == WORD * (i / WORD) + i % WORD;
      }
    }
  }

  /** Union of two rows, word by word, into the first. */
  method BitOrInto(destination: array<Word>, source: Row)
    requires destination.Length == |source|
    modifies destination
    ensures Members(destination[..]) == Members(old(destination[..])) + Members(source)
  {
    for w := 0 to destination.Length
      invariant forall k :: 0 <= k < w ==> destination[k] == Or(old(destination[k]), source[k])
      invariant forall k :: w <= k < destination.Length ==> destination[k] == old(destination[k])
    {
      destination[w] := Or(destination[w], source[w]);
    }
    ghost var before := old(destination[..]);
    forall i: nat ensures Has(destination[..], i) <==> Has(before, i) || Has(source, i) {
    }
  }

  /**
   The word-parallel convexity test of a tentative merge: no index is both among the descendants
   and among the ancestors without being a member.
   */
  method ConvexBitsets(members: Row, descendants: Row, ancestors: Row) returns (convex: bool)
    requires |members| == |descendants| == |ancestors|
    ensures convex <==> Members(descendants) * Members(ancestors) <= Members(members)
  {
    for w := 0 to |members|
      invariant forall i: nat :: i / WORD < w && Has(descendants, i) && Has(ancestors, i) ==> Has(members, i)
    {
      var stray := And(And(descendants[w], ancestors[w]), Not(members[w]));
      if stray != ZERO {
        var b :| 0 <= b < WORD && stray[b] != ZERO[b];
        ghost var i := WORD * w + b;
        assert i / WORD == w && i % WORD == b;
        assert Has(descendants, i) && Has(ancestors, i) && !Has(members, i);
        assert i in Members(descendants) * Members(ancestors);
        return false;
      }
      forall i: nat | i / WORD == w && Has(descendants, i) && Has(ancestors, i) ensures Has(members, i) {
        assert !stray[i % WORD];
      }
    }
    convex := true;
  }
}
