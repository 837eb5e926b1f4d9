/** The string-masking scheme of HideStaticReferences.cpp: the inline byte
    transform `XOR`, the `XOR_STRING` macro that masks or unmasks a
    NUL-terminated buffer in place, and the masked literals built from `XOR`. */
module StringMask {

  /** A C `char`. Only its eight bits matter to XOR, so signedness is ignored. */
  type byte = bv8

  /** `XOR(a, key)`: one byte XORed with the key. Applying it twice with the
      same key gives the byte back; it changes the byte exactly when the key is
      not zero, and it yields NUL exactly when the byte equals the key. */
  function Xor(a: byte, key: byte): (r: byte)
    ensures r ^ key == a
    ensures r == a <==> key == 0
    ensures r == 0 <==> a == key
  {
    a ^ key
  }

  /** `strlen`: the index of the first NUL byte. The buffer must hold one. */
  function Strlen(s: seq<byte>): (n: nat)
    requires 0 in s
    ensures n < |s| && s[n] == 0
    ensures forall i :: 0 <= i < n ==> s[i] != 0
  {
    if s[0] == 0 then 0
    else
      assert 0 in s[1..] by { var j :| 0 <= j < |s| && s[j] == 0; assert s[1..][j - 1] == 0; }
      1 + Strlen(s[1..])
  }

  /** `s` with its first `n` bytes XORed with `key` and every other byte kept. */
  function XorPrefix(s: seq<byte>, n: nat, key: byte): (r: seq<byte>)
    requires n <= |s|
    ensures |r| == |s|
    ensures forall i :: 0 <= i < n ==> r[i] == Xor(s[i], key)
    ensures r[n..] == s[n..]
    decreases n
  {
    if n == 0 then s
    else
      var rest := XorPrefix(s[1..], n - 1, key);
      assert ([Xor(s[0], key)] + rest)[n..] == rest[n - 1..];
      [Xor(s[0], key)] + rest
  }

  /** What `XOR_STRING(input, key)` makes of a buffer. The length is measured
      once, before any byte is written, so every byte before the original
      terminator is XORed even when an earlier write has produced a NUL; the
      terminator and everything after it are left as they were. */
  function XorString(s: seq<byte>, key: byte): (r: seq<byte>)
    requires 0 in s
    ensures |r| == |s|
    ensures forall i :: 0 <= i < Strlen(s) ==> r[i] == Xor(s[i], key)
    ensures r[Strlen(s)..] == s[Strlen(s)..]
    ensures r[Strlen(s)] == 0 && 0 in r
  {
    XorPrefix(s, Strlen(s), key)
  }

  /** The macro `XOR_STRING(input, key)` on a NUL-terminated buffer. */
  method XorStringInPlace(input: array<byte>, key: byte)
    requires 0 in input[..]
    modifies input
    ensures input[..] == XorString(old(input[..]), key)
    ensures forall i :: 0 <= i < Strlen(old(input[..])) ==> input[i] == Xor(old(input[i]), key)
    ensures forall i :: Strlen(old(input[..])) <= i < input.Length ==> input[i] == old(input[i])
  {
    var len := Strlen(input[..]);
    var i := 0;
    while i < len
      invariant 0 <= i <= len
      invariant len == Strlen(old(input[..]))
      invariant forall k :: 0 <= k < i ==> input[k] == Xor(old(input[k]), key)
      invariant forall k :: i <= k < input.Length ==> input[k] == old(input[k])
    {
      input[i] := Xor(input[i], key);
      i := i + 1;
    }
    ghost var expected := XorString(old(input[..]), key);
    assert forall k :: 0 <= k < input.Length ==> input[..][k] == expected[k] by {
      forall k | 0 <= k < input.Length ensures input[..][k] == expected[k] {
        if k >= len {
          assert expected[len..][k - len] == old(input[..])[len..][k - len];
        }
      }
    }
  }

  /** No byte before the terminator equals the key, so masking writes no NUL. */
  predicate KeyFree(s: seq<byte>, key: byte)
    requires 0 in s
  {
    forall i :: 0 <= i < Strlen(s) ==> s[i] != key
  }

  /** Two positions that both satisfy Strlen's contract are the same. */
  lemma StrlenIsFirstNul(s: seq<byte>, n: nat)
    requires n < |s| && s[n] == 0
    requires forall i :: 0 <= i < n ==> s[i] != 0
    ensures 0 in s && Strlen(s) == n
  {
    assert s[n] in s;
  }

  /** After one `XOR_STRING`, `strlen` is never longer. It is the same exactly
      when no byte before the terminator equals the key; otherwise it stops at
      the first byte that equalled the key, which masking turned into NUL. */
  lemma StrlenAfterXorString(s: seq<byte>, key: byte)
    requires 0 in s
    ensures Strlen(XorString(s, key)) <= Strlen(s)
    ensures Strlen(XorString(s, key)) == Strlen(s) <==> KeyFree(s, key)
    ensures Strlen(XorString(s, key)) < Strlen(s) ==> s[Strlen(XorString(s, key))] == key
    ensures forall i :: 0 <= i < Strlen(XorString(s, key)) ==> s[i] != key
  {
  }

  /** The round trip: masking twice with the same key restores the buffer
      exactly when no byte before the terminator equals the key. When one does,
      the first pass writes a NUL there and the second pass stops short of it. */
  lemma XorStringRoundTrip(s: seq<byte>, key: byte)
    requires 0 in s
    ensures XorString(XorString(s, key), key) == s <==> KeyFree(s, key)
  {
    if !KeyFree(s, key) {
      // The first pass wrote NUL at the first key byte, where the buffer held
      // the key (nonzero); the second pass stops there and leaves the NUL.
      var m := Strlen(XorString(s, key));
      StrlenAfterXorString(s, key);
      assert XorString(XorString(s, key), key)[m] == 0 != s[m];
    }
  }

  /** A buffer whose first byte equals the key does not survive two passes:
      "iA" masked with 0x69 starts with NUL, and unmasking then does nothing. */
  lemma KeyByteBreaksRoundTrip()
    ensures XorString(XorString([0x69, 0x41, 0x00], 0x69), 0x69) != [0x69, 0x41, 0x00]
  {
    var s: seq<byte> := [0x69, 0x41, 0x00];
    StrlenIsFirstNul(s, 2);
    XorStringRoundTrip(s, 0x69);
  }

  /** With key zero the macro leaves the buffer as it was. */
  lemma XorStringZeroKey(s: seq<byte>)
    requires 0 in s
    ensures XorString(s, 0) == s
  {
  }

  /** A masked literal as the source initialises it: each character of the
      plaintext passed through `XOR` with the key, then a NUL. */
  function MaskedLiteral(plain: seq<byte>, key: byte): (r: seq<byte>)
    ensures |r| == |plain| + 1 && r[|plain|] == 0
    ensures forall i :: 0 <= i < |plain| ==> r[i] ^ key == plain[i]
  {
    seq(|plain|, i requires 0 <= i < |plain| => Xor(plain[i], key)) + [0]
  }

  /** Unmasking a masked literal with its key yields the plaintext and its NUL
      exactly when no character equals the key. A character that does was
      stored as NUL, so the unmasking `XOR_STRING` stops there. */
  lemma UnmaskLiteral(plain: seq<byte>, key: byte)
    requires 0 !in plain
    ensures 0 in MaskedLiteral(plain, key)
    ensures XorString(MaskedLiteral(plain, key), key) == plain + [0] <==> key !in plain
    ensures key !in plain ==> Strlen(MaskedLiteral(plain, key)) == |plain|
  {
    var m := MaskedLiteral(plain, key);
    assert m[|plain|] in m;
    if key !in plain {
      RemaskLiteral(plain, key);
      KeyFreePlain(plain, key);
      XorStringRoundTrip(plain + [0], key);
      UnmaskedLength(plain, key);
    } else {
      var j :| 0 <= j < |plain| && plain[j] == key;
      assert m[j] == Xor(plain[j], key) == 0;
      var n := Strlen(m);
      var u := XorString(m, key);
      assert n <= j;
      assert u[n..][0] == m[n..][0] == 0;
      assert plain[n] in plain;
      assert u[n] != (plain + [0])[n];
    }
  }

  /** A plaintext literal with no key character is key-free. */
  lemma KeyFreePlain(plain: seq<byte>, key: byte)
    requires 0 !in plain && key !in plain
    ensures 0 in plain + [0] && KeyFree(plain + [0], key)
  {
    var s := plain + [0];
    forall i | 0 <= i < |plain| ensures s[i] != 0 && s[i] != key { assert plain[i] in plain; }
    StrlenIsFirstNul(s, |plain|);
  }

  /** A masked literal with no key character measures as long as its plaintext. */
  lemma UnmaskedLength(plain: seq<byte>, key: byte)
    requires 0 !in plain && key !in plain
    ensures 0 in MaskedLiteral(plain, key) && Strlen(MaskedLiteral(plain, key)) == |plain|
  {
    var m := MaskedLiteral(plain, key);
    forall i | 0 <= i < |plain| ensures m[i] != 0 {
      assert plain[i] in plain;
      assert m[i] ^ key == plain[i];
    }
    StrlenIsFirstNul(m, |plain|);
  }

  /** Re-masking the plaintext of a literal with the same key gives back the
      masked literal it was decoded from. */
  lemma RemaskLiteral(plain: seq<byte>, key: byte)
    requires 0 !in plain && key !in plain
    ensures 0 in plain + [0]
    ensures XorString(plain + [0], key) == MaskedLiteral(plain, key)
  {
  }
}
