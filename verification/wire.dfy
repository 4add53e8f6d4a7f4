/** Bytes as they sit in a frame buffer: an Option wrapper for the C code's
    NULL returns, 16-bit numbers and their network-order bytes (ntohs and
    htons), the copy of bytes over a range of a buffer (memcpy), and a frame
    built by a list of such stores. */
module Wire {

  datatype Option<T> = None | Some(value: T)

  /** An octet of a frame. */
  type Byte = x: int | 0 <= x < 0x100

  /** A 48-bit Ethernet hardware address. */
  type Mac = s: seq<Byte> | |s| == 6 witness [0, 0, 0, 0, 0, 0]

  /** An IPv4 address as its four bytes in network order; the router only
      ever compares and copies addresses. */
  type Addr = s: seq<Byte> | |s| == 4 witness [0, 0, 0, 0]

  /** A 16-bit field as its two bytes in network order. */
  type Word = s: seq<Byte> | |s| == 2 witness [0, 0]

  /** A 16-bit unsigned number (uint16_t). */
  type U16 = n: nat | n < 0x1_0000

  const BROADCAST: Mac := [0xFF, 0xFF, 0xFF, 0xFF, 0xFF, 0xFF]
  const ZERO_WORD: Word := [0, 0]

  /** ntohs: the number a 16-bit field holds. */
  function Ntohs(w: Word): (r: U16)
  {
    w[0] as int * 256 + w[1] as int
  }

  /** htons: the bytes that store a 16-bit number. */
  function Htons(v: U16): (w: Word)
    ensures Ntohs(w) == v
  {
    [v / 256, v % 256]
  }

  /** Reading a field and storing the number back gives the same bytes, so
      two fields hold the same number exactly when they hold the same bytes. */
  lemma HtonsNtohs(w: Word)
    ensures Htons(Ntohs(w)) == w
  {
  }

  /** `n` zero bytes. */
  function Zeros(n: nat): (r: seq<Byte>)
    ensures |r| == n && forall k :: 0 <= k < n ==> r[k] == 0
  {
    seq(n, _ => 0)
  }

  /** The buffer `s` after `w` has been copied over it starting at `off`. */
  function Overwrite(s: seq<Byte>, off: nat, w: seq<Byte>): (r: seq<Byte>)
    requires off + |w| <= |s|
    ensures |r| == |s|
    ensures forall k :: 0 <= k < |s| ==> r[k] == if off <= k < off + |w| then w[k - off] else s[k]
  {
    seq(|s|, k requires 0 <= k < |s| => if off <= k < off + |w| then w[k - off] else s[k])
  }

  /** Bytes outside the copied range keep their values. */
  lemma OverwriteKeeps(s: seq<Byte>, off: nat, w: seq<Byte>, i: nat, j: nat)
    requires off + |w| <= |s| && i <= j <= |s| && (j <= off || off + |w| <= i)
    ensures Overwrite(s, off, w)[i..j] == s[i..j]
  {
  }

  /** Bytes inside the copied range hold the copied bytes. */
  lemma OverwritePlaces(s: seq<Byte>, off: nat, w: seq<Byte>)
    requires off + |w| <= |s|
    ensures Overwrite(s, off, w)[off..off + |w|] == w
  {
  }

  /** Two buffers that agree on a prefix agree on every range inside it. */
  lemma PrefixRange(a: seq<Byte>, b: seq<Byte>, n: nat, i: nat, j: nat)
    requires n <= |a| && n <= |b| && a[..n] == b[..n] && i <= j <= n
    ensures a[i..j] == b[i..j]
  {
    assert a[i..j] == a[..n][i..j];
    assert b[i..j] == b[..n][i..j];
  }

  /** Two buffers of one length that agree from `n` on agree on every range
      there. */
  lemma SuffixRange(a: seq<Byte>, b: seq<Byte>, n: nat, i: nat, j: nat)
    requires |a| == |b| && n <= i <= j <= |a| && a[n..] == b[n..]
    ensures a[i..j] == b[i..j]
  {
    forall k | i <= k < j
      ensures a[k] == b[k]
    {
      assert a[k] == a[n..][k - n];
      assert b[k] == b[n..][k - n];
    }
  }

  /** Two buffers that agree on a range agree on every range inside it. */
  lemma InnerRange(a: seq<Byte>, b: seq<Byte>, lo: nat, hi: nat, i: nat, j: nat)
    requires hi <= |a| && hi <= |b| && lo <= i <= j <= hi && a[lo..hi] == b[lo..hi]
    ensures a[i..j] == b[i..j]
  {
    forall k | i <= k < j
      ensures a[k] == b[k]
    {
      assert a[k] == a[lo..hi][k - lo];
      assert b[k] == b[lo..hi][k - lo];
    }
  }

  /** A buffer of `n >= |s|` bytes whose first `|s|` bytes are `s`. */
  function Grown(s: seq<Byte>, n: nat): (r: seq<Byte>)
    requires |s| <= n
    ensures |r| == n && r[..|s|] == s
  {
    s + Zeros(n - |s|)
  }

  /** One field store: `bytes` copied into the buffer at `off`. */
  datatype Patch = Patch(off: nat, bytes: seq<Byte>)

  /** Every store lies inside a buffer of `n` bytes. */
  predicate Fits(ps: seq<Patch>, n: nat)
  {
    forall i :: 0 <= i < |ps| ==> ps[i].off + |ps[i].bytes| <= n
  }

  /** No two stores touch the same byte. */
  predicate Disjoint(ps: seq<Patch>)
  {
    forall i, j :: 0 <= i < j < |ps| ==>
      ps[i].off + |ps[i].bytes| <= ps[j].off || ps[j].off + |ps[j].bytes| <= ps[i].off
  }

  /** Each store ends at or before the next one begins. */
  predicate Ascending(ps: seq<Patch>)
  {
    forall i :: 0 <= i < |ps| - 1 ==> ps[i].off + |ps[i].bytes| <= ps[i + 1].off
  }

  /** Stores in ascending order never overlap. */
  lemma AscendingDisjoint(ps: seq<Patch>)
    requires Ascending(ps)
    ensures Disjoint(ps)
  {
    forall i, j | 0 <= i < j < |ps|
      ensures ps[i].off + |ps[i].bytes| <= ps[j].off
    {
      AscendingFrom(ps, i, j);
    }
  }

  lemma {:induction false} AscendingFrom(ps: seq<Patch>, i: nat, j: nat)
    requires Ascending(ps) && i < j < |ps|
    ensures ps[i].off + |ps[i].bytes| <= ps[j].off
    decreases j - i
  {
    if i + 1 < j {
      AscendingFrom(ps, i + 1, j);
    }
  }

  /** The buffer `s` after the stores `ps`, first to last. */
  function Patched(s: seq<Byte>, ps: seq<Patch>): (r: seq<Byte>)
    requires Fits(ps, |s|)
    ensures |r| == |s|
    decreases |ps|
  {
    if ps == [] then s
    else
      var last := ps[|ps| - 1];
      Overwrite(Patched(s, ps[..|ps| - 1]), last.off, last.bytes)
  }

  /** One more store at the end is one more copy over the result. */
  lemma PatchedSnoc(s: seq<Byte>, ps: seq<Patch>, p: Patch)
    requires Fits(ps, |s|) && p.off + |p.bytes| <= |s|
    ensures Fits(ps + [p], |s|)
    ensures Patched(s, ps + [p]) == Overwrite(Patched(s, ps), p.off, p.bytes)
  {
    assert (ps + [p])[..|ps|] == ps;
  }

  /** Copies over disjoint ranges can be made in either order. */
  lemma OverwriteCommutes(s: seq<Byte>, i: nat, v: seq<Byte>, j: nat, w: seq<Byte>)
    requires i + |v| <= |s| && j + |w| <= |s|
    requires i + |v| <= j || j + |w| <= i
    ensures Overwrite(Overwrite(s, i, v), j, w) == Overwrite(Overwrite(s, j, w), i, v)
  {
  }

  /** After stores that touch disjoint bytes, each field holds what was
      stored in it, whatever the order. */
  lemma {:induction false} PatchedField(s: seq<Byte>, ps: seq<Patch>, i: nat)
    requires Fits(ps, |s|) && Disjoint(ps) && i < |ps|
    ensures Patched(s, ps)[ps[i].off..ps[i].off + |ps[i].bytes|] == ps[i].bytes
    decreases |ps|
  {
    var p := ps[i];
    var front := ps[..|ps| - 1];
    var last := ps[|ps| - 1];
    assert Fits(front, |s|);
    if i == |ps| - 1 {
      OverwritePlaces(Patched(s, front), p.off, p.bytes);
    } else {
      assert Disjoint(front);
      PatchedField(s, front, i);
      OverwriteKeeps(Patched(s, front), last.off, last.bytes, p.off, p.off + |p.bytes|);
    }
  }

  /** Bytes no store touches keep their values. */
  lemma {:induction false} PatchedOutside(s: seq<Byte>, ps: seq<Patch>, lo: nat, hi: nat)
    requires Fits(ps, |s|) && lo <= hi <= |s|
    requires forall i :: 0 <= i < |ps| ==> hi <= ps[i].off || ps[i].off + |ps[i].bytes| <= lo
    ensures Patched(s, ps)[lo..hi] == s[lo..hi]
    decreases |ps|
  {
    if ps != [] {
      var front := ps[..|ps| - 1];
      var last := ps[|ps| - 1];
      assert Fits(front, |s|);
      PatchedOutside(s, front, lo, hi);
      OverwriteKeeps(Patched(s, front), last.off, last.bytes, lo, hi);
    }
  }

  /** memcpy(a + off, w, |w|): copies `w` into the buffer byte by byte. */
  method CopyInto(a: array<Byte>, off: nat, w: seq<Byte>)
    requires off + |w| <= a.Length
    modifies a
    ensures a[..] == Overwrite(old(a[..]), off, w)
  {
    var i := 0;
    while i < |w|
      invariant 0 <= i <= |w|
      invariant forall k :: 0 <= k < a.Length ==> a[k] == if off <= k < off + i then w[k - off] else old(a[k])
    {
      a[off + i] := w[i];
      i := i + 1;
    }
    assert forall k :: 0 <= k < a.Length ==> a[..][k] == Overwrite(old(a[..]), off, w)[k];
  }

  /** malloc(n) followed by memcpy of all of `a` into it. The bytes past the
      copy are zero here; the C code leaves them uninitialised. */
  method Clone(a: array<Byte>, n: nat) returns (b: array<Byte>)
    requires a.Length <= n
    ensures fresh(b)
    ensures b[..] == Grown(a[..], n)
  {
    b := new Byte[n](_ => 0);
    var i := 0;
    while i < a.Length
      invariant 0 <= i <= a.Length
      invariant forall k :: 0 <= k < n ==> b[k] == if k < i then a[k] else 0
    {
      b[i] := a[i];
      i := i + 1;
    }
    assert forall k :: 0 <= k < n ==> b[..][k] == Grown(a[..], n)[k];
  }
}
