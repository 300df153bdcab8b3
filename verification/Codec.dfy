/** Byte-level building blocks shared by the file formats (`take_*` and `push_*` in
`src/signing.rs` and `src/private_bridge.rs`). */
module Codec {
  import opened Errors
  import opened Field

  type Key = b: Bytes | |b| == 32 witness seq<Byte>(32, _ => 0)
  type Salt = b: Bytes | |b| == 16 witness seq<Byte>(16, _ => 0)
  type Signature = b: Bytes | |b| == 64 witness seq<Byte>(64, _ => 0)
  type U32 = n: int | 0 <= n < 0x1_0000_0000

  predicate Continuation(b: Byte) { 0x80 <= b <= 0xBF }

  /** UTF-8 as section 4 of RFC 3629 defines it: no overlong forms, no surrogates. */
  predicate ValidUtf8(s: Bytes) {
    if s == [] then true
    else if s[0] <= 0x7F then ValidUtf8(s[1..])
    else if 0xC2 <= s[0] <= 0xDF then |s| >= 2 && Continuation(s[1]) && ValidUtf8(s[2..])
    else if 0xE0 <= s[0] <= 0xEF then
      |s| >= 3 && Continuation(s[1]) && (s[0] == 0xE0 ==> 0xA0 <= s[1]) && (s[0] == 0xED ==> s[1] <= 0x9F)
      && Continuation(s[2]) && ValidUtf8(s[3..])
    else if 0xF0 <= s[0] <= 0xF4 then
      |s| >= 4 && Continuation(s[1]) && (s[0] == 0xF0 ==> 0x90 <= s[1]) && (s[0] == 0xF4 ==> s[1] <= 0x8F)
      && Continuation(s[2]) && Continuation(s[3]) && ValidUtf8(s[4..])
    else false
  }

  /** A string, by its UTF-8 bytes. */
  type Text = s: Bytes | ValidUtf8(s) witness []

  // ----- big-endian numbers

  function Be16(n: nat): (s: Bytes)
    requires n < 0x1_0000
    ensures |s| == 2
  {
    [n / 0x100, n % 0x100]
  }

  function FromBe16(s: Bytes): (n: nat)
    requires |s| == 2
    ensures n < 0x1_0000
  {
    var high: int := s[0];
    high * 0x100 + s[1]
  }

  function Be32(n: U32): (s: Bytes)
    ensures |s| == 4
  {
    Be16(n / 0x1_0000) + Be16(n % 0x1_0000)
  }

  function FromBe32(s: Bytes): (n: U32)
    requires |s| == 4
  {
    FromBe16(s[..2]) * 0x1_0000 + FromBe16(s[2..])
  }

  lemma Be16Inverse(n: nat, s: Bytes)
    requires n < 0x1_0000 && |s| == 2
    ensures FromBe16(Be16(n)) == n && Be16(FromBe16(s)) == s
  {
  }

  lemma Be32Inverse(n: U32, s: Bytes)
    requires |s| == 4
    ensures FromBe32(Be32(n)) == n && Be32(FromBe32(s)) == s
  {
    Be16Inverse(n / 0x1_0000, s[..2]);
    Be16Inverse(n % 0x1_0000, s[2..]);
    assert Be32(n)[..2] == Be16(n / 0x1_0000) && Be32(n)[2..] == Be16(n % 0x1_0000);
    assert s == s[..2] + s[2..];
    var h, l := FromBe16(s[..2]), FromBe16(s[2..]);
    assert (h * 0x1_0000 + l) / 0x1_0000 == h && (h * 0x1_0000 + l) % 0x1_0000 == l;
  }

  /** `push_len_prefixed`, for a field short enough to have a 16-bit length. */
  function Prefixed(b: Bytes): (s: Bytes)
    requires |b| < 0x1_0000
    ensures |s| == 2 + |b|
  {
    Be16(|b|) + b
  }

  // ----- laying fields end to end

  function Concat(fields: seq<Bytes>): Bytes {
    if fields == [] then [] else fields[0] + Concat(fields[1..])
  }

  lemma {:induction false} ConcatLast(fields: seq<Bytes>, f: Bytes)
    ensures Concat(fields + [f]) == Concat(fields) + f
  {
    if fields == [] {
      assert [f][1..] == [];
      assert Concat([f]) == f + Concat([f][1..]);
    } else {
      assert (fields + [f])[1..] == fields[1..] + [f];
      ConcatLast(fields[1..], f);
    }
  }

  lemma {:induction false} ConcatAppend(a: seq<Bytes>, b: seq<Bytes>)
    ensures Concat(a + b) == Concat(a) + Concat(b)
  {
    if a == [] {
      assert a + b == b;
    } else {
      assert (a + b)[1..] == a[1..] + b;
      ConcatAppend(a[1..], b);
    }
  }

  /** The bytes from the i-th field on start with the i-th field. */
  lemma ConcatFrom(fields: seq<Bytes>, i: nat)
    requires i < |fields|
    ensures Concat(fields[i..]) == fields[i] + Concat(fields[i + 1..])
  {
    assert fields[i..][1..] == fields[i + 1..];
  }

  // ----- a cursor over the bytes not yet read

  datatype Taken<+T> = Short | Taken(value: T, rest: Bytes) {
    predicate IsFailure() { Short? }

    function PropagateFailure<U>(): Taken<U>
      requires Short?
    {
      Short
    }

    function Extract(): (T, Bytes)
      requires Taken?
    {
      (value, rest)
    }
  }

  /** What a decoder returns for a whole file: nothing may be left over. */
  function Whole<T>(t: Taken<T>): Result<T> {
    if t.Taken? && t.rest == [] then Ok(t.value) else Err(InvalidBridgePackage)
  }

  /** `take_n`: split off the first n bytes. */
  function TakeN(data: Bytes, n: nat): (t: Taken<Bytes>)
    ensures t.Taken? <==> n <= |data|
    ensures t.Taken? ==> |t.value| == n && data == t.value + t.rest
  {
    if |data| < n then Short else Taken(data[..n], data[n..])
  }

  /** `take_len_prefixed` */
  function TakeLenPrefixed(data: Bytes): (t: Taken<Bytes>)
    ensures t.Taken? ==> |t.value| < 0x1_0000 && data == Prefixed(t.value) + t.rest
  {
    var (len, rest) :- TakeN(data, 2);
    Be16Inverse(0, len);
    TakeN(rest, FromBe16(len))
  }

  /** A length-prefixed string: malformed UTF-8 is refused. */
  function TakeText(data: Bytes): (t: Taken<Text>)
    ensures t.Taken? ==> |t.value| < 0x1_0000 && data == Prefixed(t.value) + t.rest
  {
    var (b, rest) :- TakeLenPrefixed(data);
    if ValidUtf8(b) then Taken(b, rest) else Short
  }

  lemma TakeFront(a: Bytes, rest: Bytes)
    ensures TakeN(a + rest, |a|) == Taken(a, rest)
  {
    assert (a + rest)[..|a|] == a && (a + rest)[|a|..] == rest;
  }

  lemma TakeTextFront(a: Text, rest: Bytes)
    requires |a| < 0x1_0000
    ensures TakeText(Prefixed(a) + rest) == Taken(a, rest)
  {
    assert Prefixed(a) + rest == Be16(|a|) + (a + rest);
    TakeFront(Be16(|a|), a + rest);
    Be16Inverse(|a|, Be16(|a|));
    TakeFront(a, rest);
  }

  /** The cursor the decoders move: `&mut &[u8]`. */
  class Cursor {
    var data: Bytes

    constructor (bytes: Bytes)
      ensures data == bytes
    {
      data := bytes;
    }

    method TakeBytes(n: nat) returns (r: Result<Bytes>)
      modifies this
      ensures match TakeN(old(data), n)
        case Short => r == Err(InvalidBridgePackage)
        case Taken(b, rest) => r == Ok(b) && data == rest
    {
      if |data| < n {
        return Err(InvalidBridgePackage);
      }
      r := Ok(data[..n]);
      data := data[n..];
    }

    method TakeString() returns (r: Result<Text>)
      modifies this
      ensures match TakeText(old(data))
        case Short => r == Err(InvalidBridgePackage)
        case Taken(b, rest) => r == Ok(b) && data == rest
    {
      var len :- TakeBytes(2);
      var b :- TakeBytes(FromBe16(len));
      return if ValidUtf8(b) then Ok(b) else Err(InvalidBridgePackage);
    }
  }

  /** The buffer the encoders append to, with the fields appended so far. */
  class Buffer {
    var bytes: Bytes
    ghost var fields: seq<Bytes>

    ghost predicate Valid()
      reads this
    {
      bytes == Concat(fields)
    }

    constructor ()
      ensures Valid() && fields == []
    {
      bytes := [];
      fields := [];
    }

    method Push(f: Bytes)
      requires Valid()
      modifies this
      ensures Valid() && fields == old(fields) + [f] && bytes == old(bytes) + f
    {
      ConcatLast(fields, f);
      bytes := bytes + f;
      fields := fields + [f];
    }

    /** `push_len_prefixed` */
    method PushPrefixed(b: Bytes) returns (r: Result<()>)
      requires Valid()
      modifies this
      ensures Valid()
      ensures if |b| >= 0x1_0000 then r == Err(BundleFieldTooLarge)
              else r.Ok? && fields == old(fields) + [Prefixed(b)] && bytes == old(bytes) + Prefixed(b)
    {
      if |b| >= 0x1_0000 {
        return Err(BundleFieldTooLarge);
      }
      Push(Prefixed(b));
      return Ok(());
    }
  }
}
