/** Optional values, the shape of Rust's `Option`. */
module Options {
  datatype Option<+T> = None | Some(value: T)
  {
    /** `Option::map`: apply f to the value, if there is one. */
    function Map<U>(f: T -> U): Option<U>
    {
      match this
      case None => None
      case Some(v) => Some(f(v))
    }
  }
}

/**
  * The UTF-8 representation of a Rust `&str`. A string is modelled as the
  * sequence of its Unicode scalar values (Dafny's `char`); the bytes Rust
  * actually stores are `EncodeStr` of that sequence, following the table in
  * section 3 of RFC 3629.
  */
module Utf8 {
  import opened Options

  newtype byte = x: int | 0 <= x < 0x100

  /** A continuation byte, 10xxxxxx. */
  predicate IsContinuation(b: byte) { 0x80 <= b < 0xC0 }

  /** Number of bytes announced by a lead byte, or 0 for a byte that cannot start a character. */
  function LeadWidth(b: byte): nat
  {
    if b < 0x80 then 1
    else if b < 0xC0 then 0
    else if b < 0xE0 then 2
    else if b < 0xF0 then 3
    else if b < 0xF8 then 4
    else 0
  }

  /** Number of bytes UTF-8 spends on c, by code-point range (RFC 3629, section 3). */
  function Width(c: char): (n: nat)
    ensures 1 <= n <= 4
    ensures n == 1 <==> (c as int) < 0x80
  {
    var v := c as int;
    if v < 0x80 then 1
    else if v < 0x800 then 2
    else if v < 0x10000 then 3
    else 4
  }

  /** The UTF-8 byte sequence of one character. */
  function Encode(c: char): (bs: seq<byte>)
    ensures |bs| == Width(c)
    ensures LeadWidth(bs[0]) == |bs|
    ensures forall k :: 1 <= k < |bs| ==> IsContinuation(bs[k])
  {
    var v := c as int;
    if v < 0x80 then
      [v as byte]
    else if v < 0x800 then
      [(0xC0 + v / 0x40) as byte, (0x80 + v % 0x40) as byte]
    else if v < 0x10000 then
      [(0xE0 + v / 0x1000) as byte, (0x80 + v / 0x40 % 0x40) as byte, (0x80 + v % 0x40) as byte]
    else
      [(0xF0 + v / 0x40000) as byte, (0x80 + v / 0x1000 % 0x40) as byte,
       (0x80 + v / 0x40 % 0x40) as byte, (0x80 + v % 0x40) as byte]
  }

  /** The bytes of a whole string: the encodings of its characters, in order. */
  function EncodeStr(s: seq<char>): seq<byte>
  {
    if s == [] then [] else Encode(s[0]) + EncodeStr(s[1..])
  }

  /** Byte length of a string: the sum of the widths of its characters. */
  function ByteLen(s: seq<char>): nat
  {
    if s == [] then 0 else Width(s[0]) + ByteLen(s[1..])
  }

  /** The code point carried by a lead byte and its n - 1 continuation bytes. */
  function Payload(bs: seq<byte>, p: nat, n: nat): int
    requires 1 <= n <= 4 && p + n <= |bs|
  {
    var b0 := bs[p] as int;
    if n == 1 then b0
    else if n == 2 then (b0 - 0xC0) * 0x40 + (bs[p + 1] as int - 0x80)
    else if n == 3 then
      (b0 - 0xE0) * 0x1000 + (bs[p + 1] as int - 0x80) * 0x40 + (bs[p + 2] as int - 0x80)
    else
      (b0 - 0xF0) * 0x40000 + (bs[p + 1] as int - 0x80) * 0x1000
      + (bs[p + 2] as int - 0x80) * 0x40 + (bs[p + 3] as int - 0x80)
  }

  /** Smallest code point that needs n bytes: anything below is an overlong form. */
  function MinForWidth(n: nat): int
  {
    if n <= 1 then 0 else if n == 2 then 0x80 else if n == 3 then 0x800 else 0x10000
  }

  /** Bytes p + 1 .. p + n - 1 of bs are all continuation bytes. */
  predicate ContinuationsFollow(bs: seq<byte>, p: nat, n: nat)
    requires p + n <= |bs|
  {
    forall k :: p + 1 <= k < p + n ==> IsContinuation(bs[k])
  }

  predicate IsScalarValue(v: int)
  {
    0 <= v < 0xD800 || 0xE000 <= v < 0x110000
  }

  /**
    * The character whose well-formed UTF-8 encoding starts at byte offset p of
    * bs, or None when p is past the end, sits inside a character, or starts an
    * ill-formed sequence (bad continuation, overlong form, surrogate, too large).
    */
  function DecodeAt(bs: seq<byte>, p: nat): Option<char>
  {
    if p >= |bs| then None
    else
      var n := LeadWidth(bs[p]);
      if n == 0 || |bs| < p + n || !ContinuationsFollow(bs, p, n) then None
      else
        var v := Payload(bs, p, n);
        if MinForWidth(n) <= v && IsScalarValue(v) then Some(v as char) else None
  }

  /** Decoding the bytes of c, wherever they sit, gives back c. */
  lemma DecodeEncode(pre: seq<byte>, c: char, post: seq<byte>)
    ensures DecodeAt(pre + Encode(c) + post, |pre|) == Some(c)
  {
    var bs, e, p := pre + Encode(c) + post, Encode(c), |pre|;
    var n := |e|;
    forall k | 0 <= k < n ensures bs[p + k] == e[k] { }
    var v := c as int;
    assert v == v / 0x40 * 0x40 + v % 0x40;
    if n == 3 {
      assert v / 0x40 == v / 0x1000 * 0x40 + v / 0x40 % 0x40;
    } else if n == 4 {
      assert v / 0x40 == v / 0x1000 * 0x40 + v / 0x40 % 0x40;
      assert v / 0x1000 == v / 0x40000 * 0x40 + v / 0x1000 % 0x40;
    }
    assert Payload(bs, p, n) == v;
  }

  /** A continuation byte never starts a character. */
  lemma DecodeAtContinuation(bs: seq<byte>, p: nat)
    requires p < |bs| && IsContinuation(bs[p])
    ensures DecodeAt(bs, p) == None
  {
  }

  lemma {:induction false} EncodeStrAppend(a: seq<char>, b: seq<char>)
    ensures EncodeStr(a + b) == EncodeStr(a) + EncodeStr(b)
  {
    if a != [] {
      assert (a + b)[1..] == a[1..] + b;
      EncodeStrAppend(a[1..], b);
    } else {
      assert a + b == b;
    }
  }

  lemma {:induction false} ByteLenAppend(a: seq<char>, b: seq<char>)
    ensures ByteLen(a + b) == ByteLen(a) + ByteLen(b)
  {
    if a != [] {
      assert (a + b)[1..] == a[1..] + b;
      ByteLenAppend(a[1..], b);
    } else {
      assert a + b == b;
    }
  }

  /** The byte length is the length of the encoding. */
  lemma {:induction false} EncodedLength(s: seq<char>)
    ensures |EncodeStr(s)| == ByteLen(s)
  {
    if s != [] {
      EncodedLength(s[1..]);
    }
  }

  /** Byte offset of the i-th character: ByteLen of the characters before it. */
  lemma ByteLenStep(s: seq<char>, i: nat)
    requires i < |s|
    ensures ByteLen(s[..i + 1]) == ByteLen(s[..i]) + Width(s[i])
  {
    assert s[..i + 1] == s[..i] + [s[i]];
    ByteLenAppend(s[..i], [s[i]]);
  }

  /** Dropping the first character of a prefix drops its width from the byte length. */
  lemma ByteLenPrefixesOfTail(s: seq<char>)
    requires s != []
    ensures forall i :: 1 <= i <= |s| ==> ByteLen(s[..i]) == Width(s[0]) + ByteLen(s[1..][..i - 1])
  {
    forall i | 1 <= i <= |s| ensures ByteLen(s[..i]) == Width(s[0]) + ByteLen(s[1..][..i - 1]) {
      assert s[..i][1..] == s[1..][..i - 1];
    }
  }

  /** Every character takes at least one byte, and exactly one only when it is ASCII. */
  lemma {:induction false} ByteLenAtLeastLength(s: seq<char>)
    ensures ByteLen(s) >= |s|
    ensures ByteLen(s) == |s| <==> forall j :: 0 <= j < |s| ==> (s[j] as int) < 0x80
  {
    if s != [] {
      ByteLenAtLeastLength(s[1..]);
      if ByteLen(s) == |s| {
        forall j | 0 <= j < |s| ensures (s[j] as int) < 0x80 {
          if j > 0 { assert s[j] == s[1..][j - 1]; }
        }
      }
      if forall j :: 0 <= j < |s| ==> (s[j] as int) < 0x80 {
        assert forall j :: 0 <= j < |s| - 1 ==> s[1..][j] == s[j + 1];
      }
    }
  }

  /** The character at index i of s is what decodes at byte offset ByteLen(s[..i]). */
  lemma DecodeAtBoundary(s: seq<char>, i: nat)
    requires i < |s|
    ensures ByteLen(s[..i]) < |EncodeStr(s)|
    ensures DecodeAt(EncodeStr(s), ByteLen(s[..i])) == Some(s[i])
  {
    assert s == s[..i] + ([s[i]] + s[i + 1..]);
    EncodeStrAppend(s[..i], [s[i]] + s[i + 1..]);
    EncodeStrAppend([s[i]], s[i + 1..]);
    assert EncodeStr([s[i]]) == Encode(s[i]);
    EncodedLength(s[..i]);
    var pre, post := EncodeStr(s[..i]), EncodeStr(s[i + 1..]);
    assert EncodeStr(s) == pre + Encode(s[i]) + post;
    DecodeEncode(pre, s[i], post);
  }

  /** A byte offset strictly inside the encoding of s[i] starts no character. */
  lemma DecodeInsideCharacter(s: seq<char>, i: nat, q: nat)
    requires i < |s| && ByteLen(s[..i]) < q < ByteLen(s[..i + 1])
    ensures DecodeAt(EncodeStr(s), q) == None
  {
    ByteLenStep(s, i);
    assert s == s[..i] + ([s[i]] + s[i + 1..]);
    EncodeStrAppend(s[..i], [s[i]] + s[i + 1..]);
    EncodeStrAppend([s[i]], s[i + 1..]);
    assert EncodeStr([s[i]]) == Encode(s[i]);
    EncodedLength(s[..i]);
    var pre, post := EncodeStr(s[..i]), EncodeStr(s[i + 1..]);
    var bs := pre + Encode(s[i]) + post;
    assert EncodeStr(s) == bs;
    assert bs[q] == Encode(s[i])[q - |pre|];
    DecodeAtContinuation(bs, q);
  }

  /**
    * Whatever character decodes at a byte offset before ByteLen(s[..i]) is one
    * of the first i characters of s: offsets inside the prefix either start one
    * of its characters or start none.
    */
  lemma {:induction false} DecodeBefore(s: seq<char>, i: nat, q: nat)
    requires i <= |s| && q < ByteLen(s[..i])
    requires DecodeAt(EncodeStr(s), q).Some?
    ensures exists j :: 0 <= j < i && DecodeAt(EncodeStr(s), q) == Some(s[j])
  {
    ByteLenStep(s, i - 1);
    if q < ByteLen(s[..i - 1]) {
      DecodeBefore(s, i - 1, q);
    } else if q == ByteLen(s[..i - 1]) {
      DecodeAtBoundary(s, i - 1);
    } else {
      DecodeInsideCharacter(s, i - 1, q);
    }
  }
}
