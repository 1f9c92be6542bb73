/** Block moves within one buffer (common/util.c). */
module Memory {

  /** s with its n elements from src on copied over those from dest on, as if through a temporary. */
  function Moved<T>(s: seq<T>, dest: nat, src: nat, n: nat): (r: seq<T>)
    requires dest + n <= |s| && src + n <= |s|
    ensures |r| == |s|
  {
    s[..dest] + s[src..src + n] + s[dest + n..]
  }

  /** A block of n elements and the one behind it, moved together. */
  lemma MovedSlices<T>(s: seq<T>, dest: nat, src: nat, n: nat)
    requires dest + n < |s| && src + n < |s|
    ensures var r := Moved(s, dest, src, n + 1);
            r[..dest] == s[..dest] && r[dest..dest + n] == s[src..src + n] && r[dest + n] == s[src + n]
  {
    var r, b := Moved(s, dest, src, n + 1), s[src..src + n + 1];
    assert r[dest..dest + n + 1] == b;
    assert r[dest..dest + n] == b[..n] && s[src..src + n] == b[..n];
  }

  /** Copies upwards unless the destination starts inside the source, and downwards then. */
  method MemMove<T>(a: array<T>, dest: nat, src: nat, n: nat)
    requires dest + n <= a.Length && src + n <= a.Length
    modifies a
    ensures a[..] == Moved(old(a[..]), dest, src, n)
  {
    ghost var a0, r := a[..], Moved(a[..], dest, src, n);
    if dest <= src || dest >= src + n {
      var i := 0;
      while i < n
        invariant 0 <= i <= n
        invariant forall k :: 0 <= k < a.Length ==> a[k] == if dest <= k < dest + i then r[k] else a0[k]
      {
        assert r[dest + i] == a0[src + i];
        a[dest + i] := a[src + i];
        i := i + 1;
      }
    } else {
      var i := n;
      while i > 0
        invariant 0 <= i <= n
        invariant forall k :: 0 <= k < a.Length ==> a[k] == if dest + i <= k < dest + n then r[k] else a0[k]
      {
        i := i - 1;
        assert r[dest + i] == a0[src + i];
        a[dest + i] := a[src + i];
      }
    }
  }

  /** Copies src to position at. */
  method MemCpy<T>(a: array<T>, at: nat, src: seq<T>)
    requires at + |src| <= a.Length
    modifies a
    ensures a[..] == old(a[..at]) + src + old(a[at + |src|..])
  {
    var i := 0;
    while i < |src|
      invariant 0 <= i <= |src|
      invariant forall k :: 0 <= k < a.Length ==> a[k] == if at <= k < at + i then src[k - at] else old(a[k])
    {
      a[at + i] := src[i];
      i := i + 1;
    }
  }
}
