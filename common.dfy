/** Small shared vocabulary: the byte type of the C sources and an option type. */
module Common {
  /** An `unsigned char`; the C sources store text and file content in `char` buffers. */
  type byte = b: int | 0 <= b < 256

  /** The value of the C constant `UINT_MAX` for the 32-bit `unsigned int` of the sources. */
  const UINT_MAX: int := 0xFFFF_FFFF

  datatype Option<T> = None | Some(value: T)

  /** Whether `b` occurs in `s`. */
  predicate Contains(s: seq<int>, b: int)
  {
    exists k :: 0 <= k < |s| && s[k] == b
  }

  /** No element of `s` occurs twice. */
  predicate Distinct<T(==)>(s: seq<T>)
  {
    forall i, j :: 0 <= i < j < |s| ==> s[i] != s[j]
  }

  /** `p` is a prefix of `s`. */
  predicate IsPrefix<T(==)>(p: seq<T>, s: seq<T>)
  {
    |p| <= |s| && s[..|p|] == p
  }

  /** A prefix of a prefix is a prefix. */
  lemma PrefixTrans<T>(a: seq<T>, b: seq<T>, c: seq<T>)
    requires IsPrefix(a, b) && IsPrefix(b, c)
    ensures IsPrefix(a, c)
  {
    assert c[..|a|] == c[..|b|][..|a|];
  }

  /** A sequence is a prefix of itself. */
  lemma PrefixRefl<T>(a: seq<T>)
    ensures IsPrefix(a, a)
  {
    assert a[..|a|] == a;
  }

  /** A sequence is a prefix of itself extended. */
  lemma PrefixAppend<T>(a: seq<T>, b: seq<T>)
    ensures IsPrefix(a, a + b)
  {
    assert (a + b)[..|a|] == a;
  }

  /** Two sequences without repetitions and without a common element join
      into one without repetitions. */
  lemma DistinctConcat<T>(a: seq<T>, b: seq<T>)
    requires Distinct(a) && Distinct(b)
    requires forall k :: 0 <= k < |a| ==> a[k] !in b
    ensures Distinct(a + b)
  {
    forall i, j | 0 <= i < j < |a + b| ensures (a + b)[i] != (a + b)[j] {
      if i < |a| && j >= |a| {
        assert (a + b)[j] == b[j - |a|];
      }
    }
  }

  /** Four sequences without repetitions and pairwise without a common
      element join into one without repetitions. */
  lemma DistinctJoin<T>(a: seq<T>, b: seq<T>, c: seq<T>, e: seq<T>)
    requires Distinct(a) && Distinct(b) && Distinct(c) && Distinct(e)
    requires forall x :: x in a ==> x !in b && x !in c && x !in e
    requires forall x :: x in b ==> x !in c && x !in e
    requires forall x :: x in c ==> x !in e
    ensures Distinct(a + b + c + e)
  {
    DistinctConcat(a, b);
    forall k | 0 <= k < |a + b| ensures (a + b)[k] !in c {
      if k >= |a| {
        assert (a + b)[k] == b[k - |a|];
      }
    }
    DistinctConcat(a + b, c);
    forall k | 0 <= k < |a + b + c| ensures (a + b + c)[k] !in e {
      if k >= |a + b| {
        assert (a + b + c)[k] == c[k - |a + b|];
      } else if k >= |a| {
        assert (a + b + c)[k] == b[k - |a|];
      }
    }
    DistinctConcat(a + b + c, e);
  }

  /** The counts `m` with one more occurrence of `w`. */
  function AddOne(m: map<seq<byte>, nat>, w: seq<byte>): (r: map<seq<byte>, nat>)
    ensures w in r && r[w] == (if w in m then m[w] else 0) + 1
    ensures forall v :: v != w ==> (v in r <==> v in m) && (v in m ==> r[v] == m[v])
  {
    m[w := (if w in m then m[w] else 0) + 1]
  }

  /** One more occurrence adds a key exactly when the word is new: the
      number of keys grows by one only then. */
  lemma AddOneKeys(m: map<seq<byte>, nat>, w: seq<byte>)
    ensures AddOne(m, w).Keys == m.Keys + {w}
    ensures |AddOne(m, w)| == |m| + (if w in m then 0 else 1)
  {
  }

  /** The prefix of length `pos + 1` is the prefix of length `pos` and the
      element at `pos`. */
  lemma TakeOneMore<T>(s: seq<T>, pos: nat)
    requires pos < |s|
    ensures s[..pos] + [s[pos]] == s[..pos + 1]
    ensures s[..pos + 1][..pos] == s[..pos] && s[..pos + 1][pos] == s[pos]
  {
  }

  /** A sequence that starts with `w` and has one more element `z`. */
  lemma EndsWith<T>(a: seq<T>, w: seq<T>, z: T)
    requires |a| == |w| + 1 && a[..|w|] == w && a[|w|] == z
    ensures a == w + [z]
  {
    assert a == a[..|w|] + [a[|w|]];
  }

  /** `p` is a prefix of `w` exactly when `w` is `p` or strictly extends it. */
  lemma PrefixCases<T>(p: seq<T>, w: seq<T>)
    ensures IsPrefix(p, w) <==> w == p || (|w| > |p| && w[..|p|] == p)
  {
    if |w| == |p| && w[..|p|] == p {
      assert w == w[..|p|];
    }
  }

  /** Concatenation is associative. */
  lemma Assoc<T>(a: seq<T>, b: seq<T>, c: seq<T>)
    ensures (a + b) + c == a + (b + c)
  {
  }

  /** A slice of the second part of a concatenation. */
  lemma SliceAfter<T>(x: seq<T>, y: seq<T>, i: nat, j: nat)
    requires i <= j <= |y|
    ensures (x + y)[|x| + i..|x| + j] == y[i..j]
  {
  }
}
