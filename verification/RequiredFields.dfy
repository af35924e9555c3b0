/** The bitmap in which the decoder marks the required fields it has met. */
module RequiredFields {
  import opened Bits
  import opened Schema

  const ALL_BITS: nat := TWO_TO_32 - 1

  function Shr(w: nat, n: nat): nat {
    if n == 0 then w else Shr(w / 2, n - 1)
  }

  lemma {:induction false} ShrOnes(m: nat, n: nat)
    ensures Shr(Pow2(m + n) - 1, n) == Pow2(m) - 1
  {
    if n != 0 {
      assert (Pow2(m + n) - 1) / 2 == Pow2(m + (n - 1)) - 1;
      ShrOnes(m, n - 1);
    }
  }

  /** The words hold exactly the indices in seen, 32 to a word. */
  ghost predicate Marks(words: seq<nat>, seen: set<nat>) {
    && |words| == 2
    && forall w: nat, k: nat :: w < 2 ==> (Bit(words[w], k) <==> k < 32 && 32 * w + k in seen)
  }

  /** fields_seen[index >> 5] |= 1 << (index & 31) */
  method Mark(words: array<nat>, index: nat, ghost seen: set<nat>)
    requires words.Length == 2 && index < MAX_REQUIRED && Marks(words[..], seen)
    modifies words
    ensures Marks(words[..], seen + {index})
  {
    var w, bit := index / 32, index % 32;
    ghost var before := words[w];
    words[w] := Or(words[w], Pow2(bit));
    forall v: nat, k: nat | v < 2 ensures Bit(words[v], k) <==> k < 32 && 32 * v + k in seen + {index} {
      if v == w {
        BitOr(before, Pow2(bit), k);
        BitPow2(bit, k);
      }
    }
  }

  ghost predicate LowBitsSet(word: nat, n: nat) {
    forall k: nat :: k < n ==> Bit(word, k)
  }

  /** A word equals its n lowest bits set exactly if those bits are all there is in it. */
  lemma WordIsOnes(word: nat, n: nat)
    requires n <= 32 && forall k: nat :: n <= k ==> !Bit(word, k)
    ensures word == Shr(ALL_BITS, 32 - n) <==> LowBitsSet(word, n)
  {
    var ones := Shr(ALL_BITS, 32 - n);
    Pow2To35();
    ShrOnes(n, 32 - n);
    forall k: nat ensures Bit(ones, k) <==> k < n { BitOnes(n, k); }
    if LowBitsSet(word, n) {
      forall k: nat ensures Bit(word, k) == Bit(ones, k) {}
      BitsDetermine(word, ones);
    }
  }

  /** The final test of pb_decode_noinit: whole words first, then the bits that remain. */
  method AllMarked(words: array<nat>, count: nat, ghost seen: set<nat>) returns (ok: bool)
    requires words.Length == 2 && count <= MAX_REQUIRED && Marks(words[..], seen)
    requires forall k :: k in seen ==> k < count
    ensures ok <==> forall k: nat :: k < count ==> k in seen
  {
    for i := 0 to count / 32
      invariant forall k: nat :: k < 32 * i ==> k in seen
    {
      WholeWord(words[..], i, seen);
      if words[i] != ALL_BITS { return false; }
    }
    var rest := count % 32;
    if rest != 0 {
      PartialWord(words[..], count, seen);
      if words[count / 32] != Shr(ALL_BITS, 32 - rest) { return false; }
    }
    return true;
  }

  lemma WholeWord(words: seq<nat>, w: nat, seen: set<nat>)
    requires Marks(words, seen) && w < 2
    ensures words[w] == ALL_BITS <==> forall k: nat :: 32 * w <= k < 32 * w + 32 ==> k in seen
  {
    assert ALL_BITS == Shr(ALL_BITS, 0);
    WordIsOnes(words[w], 32);
    LowBitsInSet(words, w, 32, seen);
  }

  lemma PartialWord(words: seq<nat>, count: nat, seen: set<nat>)
    requires Marks(words, seen) && count % 32 != 0 && count < 64
    requires forall k :: k in seen ==> k < count
    ensures words[count / 32] == Shr(ALL_BITS, 32 - count % 32)
       <==> forall k: nat :: count / 32 * 32 <= k < count ==> k in seen
  {
    var w, n := count / 32, count % 32;
    forall k: nat | n <= k ensures !Bit(words[w], k) {
      assert 32 * w + k !in seen;
    }
    WordIsOnes(words[w], n);
    LowBitsInSet(words, w, n, seen);
  }

  lemma LowBitsInSet(words: seq<nat>, w: nat, n: nat, seen: set<nat>)
    requires Marks(words, seen) && w < 2 && n <= 32
    ensures LowBitsSet(words[w], n) <==> forall k: nat :: 32 * w <= k < 32 * w + n ==> k in seen
  {
    if LowBitsSet(words[w], n) {
      forall k: nat | 32 * w <= k < 32 * w + n ensures k in seen {
        var j: nat := k - 32 * w;
        assert Bit(words[w], j);
      }
    }
    if forall k: nat :: 32 * w <= k < 32 * w + n ==> k in seen {
      forall k: nat | k < n ensures Bit(words[w], k) { assert 32 * w + k in seen; }
    }
  }

  //////////////////////////////////////////////////////////////////////////////
  // Indices and fields
  //////////////////////////////////////////////////////////////////////////////

  /** The field at position i is tracked, and its tag is among the given ones. */
  predicate Tracked(fields: seq<Field>, i: nat, tags: set<nat>)
    requires i < |fields|
  {
    fields[i].htype.Required? && RequiredIndex(fields, i) < MAX_REQUIRED && fields[i].tag in tags
  }

  ghost function Indices(fields: seq<Field>, tags: set<nat>): set<nat> {
    set i | 0 <= i < |fields| && Tracked(fields, i, tags) :: RequiredIndex(fields, i)
  }

  function Min(a: nat, b: nat): nat {
    if a < b then a else b
  }

  lemma {:induction false} RequiredIndexMonotone(fields: seq<Field>, i: nat, j: nat)
    requires i <= j <= |fields|
    ensures RequiredIndex(fields, i) <= RequiredIndex(fields, j)
    ensures i < j && fields[i].htype.Required? ==> RequiredIndex(fields, i) < RequiredIndex(fields, j)
    decreases j
  {
    if i < j { RequiredIndexMonotone(fields, i, j - 1); }
  }

  /** Every index below the number of required fields is that of some required field. */
  lemma {:induction false} RequiredIndexOnto(fields: seq<Field>, n: nat, k: nat) returns (i: nat)
    requires n <= |fields| && k < RequiredIndex(fields, n)
    ensures i < n && fields[i].htype.Required? && RequiredIndex(fields, i) == k
  {
    if k < RequiredIndex(fields, n - 1) {
      i := RequiredIndexOnto(fields, n - 1, k);
    } else {
      i := n - 1;
    }
  }

  lemma IndicesBelow(fields: seq<Field>, tags: set<nat>, k: nat)
    requires k in Indices(fields, tags)
    ensures k < Min(RequiredIndex(fields, |fields|), MAX_REQUIRED)
  {
    var i :| 0 <= i < |fields| && Tracked(fields, i, tags) && k == RequiredIndex(fields, i);
    RequiredIndexMonotone(fields, i, |fields|);
  }

  /** All the indices there are have been marked exactly if every tracked field has been seen. */
  lemma AllIndicesSeen(fields: seq<Field>, tags: set<nat>)
    ensures RequiredSeen(fields, tags)
       <==> forall k: nat :: k < Min(RequiredIndex(fields, |fields|), MAX_REQUIRED) ==> k in Indices(fields, tags)
  {
    var n := Min(RequiredIndex(fields, |fields|), MAX_REQUIRED);
    if RequiredSeen(fields, tags) {
      forall k: nat | k < n ensures k in Indices(fields, tags) {
        var i := RequiredIndexOnto(fields, |fields|, k);
        assert Tracked(fields, i, tags);
      }
    }
    if forall k: nat :: k < n ==> k in Indices(fields, tags) {
      forall i | 0 <= i < |fields| && fields[i].htype.Required? && RequiredIndex(fields, i) < MAX_REQUIRED
        ensures fields[i].tag in tags
      {
        RequiredIndexMonotone(fields, i, |fields|);
        assert RequiredIndex(fields, i) in Indices(fields, tags);
        var j :| 0 <= j < |fields| && Tracked(fields, j, tags) && RequiredIndex(fields, j) == RequiredIndex(fields, i);
        RequiredIndexMonotone(fields, if i < j then i else j, if i < j then j else i);
      }
    }
  }

  /** What meeting the field at position i adds. */
  lemma IndicesAfter(fields: seq<Field>, tags: set<nat>, i: nat)
    requires DistinctTags(fields) && i < |fields|
    ensures var tracked := fields[i].htype.Required? && RequiredIndex(fields, i) < MAX_REQUIRED;
            Indices(fields, tags + {fields[i].tag})
            == Indices(fields, tags) + (if tracked then {RequiredIndex(fields, i)} else {})
  {
    var tags' := tags + {fields[i].tag};
    forall j | 0 <= j < |fields| ensures Tracked(fields, j, tags')
      <==> Tracked(fields, j, tags) || (j == i && Tracked(fields, i, tags'))
    {
      if j != i { assert fields[j].tag != fields[i].tag; }
    }
  }
}
