/** Key comparison and value copying as the table performs them: keys are
    compared by `ht_v_compare` (equal lengths, then `strncmp` over that
    length) and `ht_get_copy` duplicates a value with `strncpy`. Both C
    routines stop at the first NUL byte. */
module HtKeys {
  import opened SpookyContract

  /** The length of `s` read as a C string: the position of its first NUL
      byte, or its whole length when it has none. */
  function CLength(s: Bytes): (n: nat)
    ensures n <= |s|
    ensures forall i :: 0 <= i < n ==> s[i] != 0
    ensures n < |s| ==> s[n] == 0
  {
    if s == [] || s[0] == 0 then 0 else 1 + CLength(s[1..])
  }

  /** The bytes of `s` before its first NUL. */
  function CString(s: Bytes): Bytes
  {
    s[..CLength(s)]
  }

  /** `strncmp(a, b, n)`, reduced to the sign of its result: the first of the
      first `n` positions where the bytes differ decides, unless a NUL they
      share comes first. */
  function Strncmp(a: Bytes, b: Bytes, n: nat): (r: int)
    requires n <= |a| && n <= |b|
    ensures -1 <= r <= 1
  {
    if n == 0 then 0
    else if a[0] != b[0] then (if a[0] < b[0] then -1 else 1)
    else if a[0] == 0 then 0
    else Strncmp(a[1..], b[1..], n - 1)
  }

  /** `ht_v_compare` on the keys of two entries: -1 when the lengths differ,
      otherwise `strncmp` over the common length. */
  function Compare(a: Bytes, b: Bytes): int
  {
    if |a| != |b| then -1 else Strncmp(a, b, |a|)
  }

  /** The key equality every lookup uses: `0 == ht_v_compare(entry, probe)`. */
  predicate KeysMatch(a: Bytes, b: Bytes)
  {
    Compare(a, b) == 0
  }

  /** `strncmp` over the whole of two equally long byte strings finds no
      difference exactly when they agree up to and including the first NUL. */
  lemma {:induction false} StrncmpZeroIff(a: Bytes, b: Bytes)
    requires |a| == |b|
    ensures Strncmp(a, b, |a|) == 0 <==> CString(a) == CString(b)
  {
    if a != [] {
      if a[0] != b[0] {
        assert CString(a) == [] || CString(a)[0] == a[0];
        assert CString(b) == [] || CString(b)[0] == b[0];
      } else if a[0] != 0 {
        StrncmpZeroIff(a[1..], b[1..]);
        assert CString(a) == [a[0]] + CString(a[1..]);
        assert CString(b) == [b[0]] + CString(b[1..]);
      }
    }
  }

  /** Two keys match when they have the same length and the same bytes before
      the first NUL; bytes after a NUL are never looked at. */
  lemma KeysMatchIff(a: Bytes, b: Bytes)
    ensures KeysMatch(a, b) <==> |a| == |b| && CString(a) == CString(b)
  {
    if |a| == |b| {
      StrncmpZeroIff(a, b);
    }
  }

  /** Key matching is an equivalence: reflexive, symmetric and transitive. */
  lemma KeysMatchIsEquivalence(a: Bytes, b: Bytes, c: Bytes)
    ensures KeysMatch(a, a)
    ensures KeysMatch(a, b) ==> KeysMatch(b, a)
    ensures KeysMatch(a, b) && KeysMatch(b, c) ==> KeysMatch(a, c)
  {
    KeysMatchIff(a, a);
    KeysMatchIff(a, b);
    KeysMatchIff(b, a);
    KeysMatchIff(b, c);
    KeysMatchIff(a, c);
  }

  /** For keys without NUL bytes matching is byte-for-byte equality. */
  lemma NulFreeKeysMatchIffEqual(a: Bytes, b: Bytes)
    requires CLength(a) == |a| && CLength(b) == |b|
    ensures KeysMatch(a, b) <==> a == b
  {
    KeysMatchIff(a, b);
  }

  /** Keys of equal length that agree up to and including a NUL byte match
      (compare equal), whatever follows that NUL, though the hash reads every
      byte and may send them to different buckets; a key and the same key
      with a NUL appended never match, as their lengths differ. */
  lemma KeysMatchIgnoresBytesAfterNul(a: Bytes, b: Bytes, i: nat)
    requires |a| == |b| && i < |a| && a[i] == 0 && a[..i + 1] == b[..i + 1]
    ensures KeysMatch(a, b)
    ensures !KeysMatch(a, a + [0])
  {
    assert forall j :: 0 <= j <= i ==> a[j] == a[..i + 1][j] == b[..i + 1][j] == b[j];
    var n := CLength(a);
    assert n <= i;
    assert CLength(b) == n;
    assert CString(a) == CString(b) by {
      assert forall j :: 0 <= j < n ==> a[j] == b[j];
    }
    KeysMatchIff(a, b);
  }

  function Zeros(n: nat): (r: Bytes)
    ensures |r| == n && forall i :: 0 <= i < n ==> r[i] == 0
  {
    seq(n, _ => 0)
  }

  /** `strncpy(dest, src, n)`: the bytes of `src` up to its first NUL, at most
      `n` of them, then NUL padding up to `n`. A source shorter than `n`
      without a NUL is read as if a NUL followed it. */
  function Strncpy(src: Bytes, n: nat): (r: Bytes)
    ensures |r| == n
    ensures forall i :: 0 <= i < n ==> r[i] == if i < CLength(src) then src[i] else 0
  {
    if n == 0 then []
    else if src == [] || src[0] == 0 then Zeros(n)
    else [src[0]] + Strncpy(src[1..], n - 1)
  }

  /** The copy is faithful exactly when every byte after the first NUL, among
      the first `n`, is itself NUL; in particular every NUL-free value is
      copied whole. */
  lemma StrncpyFaithfulIff(src: Bytes, n: nat)
    requires n <= |src|
    ensures Strncpy(src, n) == src[..n] <==> forall i :: CLength(src) <= i < n ==> src[i] == 0
  {
    if Strncpy(src, n) == src[..n] {
      forall i | CLength(src) <= i < n
        ensures src[i] == 0
      {
        assert Strncpy(src, n)[i] == 0;
      }
    }
  }

  /** A value with a non-NUL byte after its first NUL loses it: the copy
      holds NUL at every position from the first NUL on, so it differs from
      the stored value. */
  lemma StrncpyDropsBytesAfterNul(src: Bytes, n: nat, i: nat)
    requires n <= |src| && CLength(src) < i < n && src[i] != 0
    ensures forall k :: CLength(src) <= k < n ==> Strncpy(src, n)[k] == 0
    ensures Strncpy(src, n) != src[..n]
  {
    assert Strncpy(src, n)[i] != src[..n][i];
  }
}
