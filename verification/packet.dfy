/**
 * The `Packet` byte buffer of the peer network.
 *
 * A packet is a byte vector `buffer` with a write end `bytes` and a read
 * cursor `offset`. Values are written at `bytes` (overwriting cells beyond it
 * when the vector is longer, appending otherwise) and read at `offset`.
 * Fixed-size values travel as their raw host bytes; strings travel as their
 * characters followed by one NUL byte.
 *
 * Reads are specified on the unread bytes `buffer[offset..bytes]` (what
 * `remaining()` returns): each read takes a prefix of them.
 */
module Codec {
  import opened Blobs

  // ---------------------------------------------------------------------
  // Writing
  // ---------------------------------------------------------------------

  /** The vector after storing t at index `at`, as `add` does byte by byte. */
  function Written(buf: Bytes, at: nat, t: Bytes): (r: Bytes)
    requires at <= |buf|
  {
    if at + |t| <= |buf| then buf[..at] + t + buf[at + |t|..] else buf[..at] + t
  }

  /** Byte j after a store: from t inside the stored range, from buf elsewhere. */
  lemma WrittenAt(buf: Bytes, at: nat, t: Bytes, j: int)
    requires at <= |buf| && 0 <= j < |Written(buf, at, t)|
    ensures Written(buf, at, t)[j] == if j < at then buf[j] else if j < at + |t| then t[j - at] else buf[j]
  {
  }

  /**
   * A store keeps the cells before `at`, puts t right after them, keeps the
   * cells after t when the vector was long enough, and never shrinks it.
   */
  lemma WrittenContents(buf: Bytes, at: nat, t: Bytes)
    requires at <= |buf|
    ensures |Written(buf, at, t)| == if at + |t| <= |buf| then |buf| else at + |t|
    ensures Written(buf, at, t)[..at] == buf[..at]
    ensures Written(buf, at, t)[at..at + |t|] == t
    ensures forall j | at + |t| <= j < |buf| :: Written(buf, at, t)[j] == buf[j]
  {
    var r := Written(buf, at, t);
    if at + |t| <= |buf| {
      assert r == buf[..at] + t + buf[at + |t|..];
      forall j | at + |t| <= j < |buf|
        ensures r[j] == buf[j]
      {
        assert r[j] == buf[at + |t|..][j - at - |t|];
      }
    }
  }

  /** Two consecutive stores are one store of the concatenation. */
  lemma WrittenTwice(buf: Bytes, at: nat, t: Bytes, u: Bytes)
    requires at <= |buf|
    ensures at + |t| <= |Written(buf, at, t)|
    ensures Written(Written(buf, at, t), at + |t|, u) == Written(buf, at, t + u)
  {
    var b1 := Written(buf, at, t);
    var n := at + |t|;
    var b2 := Written(b1, n, u);
    var c := Written(buf, at, t + u);
    assert |b2| == |c|;
    forall j | 0 <= j < |c|
      ensures b2[j] == c[j]
    {
      WrittenAt(b1, n, u, j);
      WrittenAt(buf, at, t + u, j);
      if j < n {
        WrittenAt(buf, at, t, j);
      } else if j >= n + |u| {
        WrittenAt(buf, at, t, j);
      }
    }
  }

  /** Storing the bytes of t one at a time: after the first i, store byte i. */
  lemma AppendStep(buf: Bytes, at: nat, t: Bytes, i: nat)
    requires at <= |buf| && i < |t|
    ensures at + i <= |Written(buf, at, t[..i])|
    ensures Written(Written(buf, at, t[..i]), at + i, [t[i]]) == Written(buf, at, t[..i + 1])
  {
    WrittenTwice(buf, at, t[..i], [t[i]]);
    assert t[..i] + [t[i]] == t[..i + 1];
  }

  /** Storing one byte overwrites the cell at `at`, or appends at the end. */
  lemma WrittenOne(buf: Bytes, at: nat, x: bv8)
    requires at <= |buf|
    ensures Written(buf, at, [x]) == if at < |buf| then buf[at := x] else buf + [x]
  {
    if at < |buf| {
      assert Written(buf, at, [x]) == buf[..at] + [x] + buf[at + 1..];
    } else {
      assert buf[..at] == buf;
    }
  }

  /** Seen from any read position up to `at`, a store at `at` appends t to the unread bytes. */
  lemma WrittenUnread(buf: Bytes, from: nat, at: nat, t: Bytes)
    requires from <= at <= |buf|
    ensures at + |t| <= |Written(buf, at, t)|
    ensures Written(buf, at, t)[from..at + |t|] == buf[from..at] + t
  {
    var r := Written(buf, at, t);
    WrittenContents(buf, at, t);
    assert r[from..at] == r[..at][from..] == buf[..at][from..] == buf[from..at];
    assert r[from..at + |t|] == r[from..at] + r[at..at + |t|];
  }

  // ---------------------------------------------------------------------
  // Reading, on the unread bytes
  // ---------------------------------------------------------------------

  function Min(a: int, b: int): int
  {
    if a < b then a else b
  }

  /**
   * `get<T>` on unread bytes `data`, where init holds the bytes of a
   * default-constructed T: the value read and the bytes left unread. As many
   * leading bytes as are available are taken; the rest keep init's bytes.
   */
  function TakeFixed(data: Bytes, init: Bytes): (r: (Bytes, Bytes))
    ensures |r.0| == |init|
    ensures data == r.0[..Min(|init|, |data|)] + r.1
  {
    var n := Min(|init|, |data|);
    assert (data[..n] + init[n..])[..n] == data[..n];
    assert data == data[..n] + data[n..];
    (data[..n] + init[n..], data[n..])
  }

  /** With enough bytes, `get` returns exactly the next |init| of them. */
  lemma TakeFixedFull(data: Bytes, init: Bytes)
    requires |init| <= |data|
    ensures TakeFixed(data, init) == (data[..|init|], data[|init|..])
  {
    assert init[|init|..] == [];
    assert data[..|init|] + [] == data[..|init|];
  }

  /** With too few bytes, only the leading bytes are filled and nothing is left. */
  lemma TakeFixedShort(data: Bytes, init: Bytes)
    requires |data| < |init|
    ensures TakeFixed(data, init).0 == data + init[|data|..]
    ensures TakeFixed(data, init).1 == []
  {
  }

  /** Index of the first NUL in data, or |data| when there is none. */
  function NulIndex(data: Bytes): (k: nat)
    ensures k <= |data|
    ensures k < |data| ==> data[k] == 0
    ensures forall j | 0 <= j < k :: data[j] != 0
  {
    if data == [] || data[0] == 0 then 0 else 1 + NulIndex(data[1..])
  }

  predicate NulFree(s: Bytes)
  {
    forall i | 0 <= i < |s| :: s[i] != 0
  }

  /**
   * `getStr` on unread bytes `data`: the string read and the bytes left
   * unread. The string runs to the first NUL, which is consumed; without a
   * NUL it is everything.
   */
  function TakeStr(data: Bytes): (r: (Bytes, Bytes))
    ensures |r.0| + |r.1| <= |data|
  {
    var k := NulIndex(data);
    (data[..k], if k < |data| then data[k + 1..] else [])
  }

  /** `getStr` never returns a NUL, and consumes the string plus a NUL when there is one. */
  lemma TakeStrShape(data: Bytes)
    ensures NulFree(TakeStr(data).0)
    ensures var (s, rest) := TakeStr(data);
      data == s + rest || data == s + [0] + rest
    ensures |TakeStr(data).1| < |data| || data == []
  {
    var k := NulIndex(data);
    if k < |data| {
      assert data == data[..k] + [0] + data[k + 1..];
    } else {
      assert data[..k] == data;
    }
  }

  /** A NUL-free string followed by a NUL is read back unchanged. */
  lemma StrRoundTrip(s: Bytes, rest: Bytes)
    requires NulFree(s)
    ensures TakeStr(s + [0] + rest) == (s, rest)
  {
    var data := s + [0] + rest;
    assert data[|s|] == 0;
    forall j | 0 <= j < |s|
      ensures data[j] != 0
    {
      assert data[j] == s[j];
    }
    var k := NulIndex(data);
    assert k == |s|;
    assert data[..k] == s;
    assert data[k + 1..] == rest;
  }

  // ---------------------------------------------------------------------
  // Messages made of several fields
  // ---------------------------------------------------------------------

  /** One value written with `add<T>` (its raw bytes) or with `addStr`. */
  datatype Field = Fixed(value: Bytes) | Text(chars: Bytes)

  /** What a reader asks for: `get<T>` for a type of the given width, or `getStr`. */
  datatype Shape = FixedWidth(width: nat) | Str

  function ShapeOf(f: Field): Shape
  {
    match f
    case Fixed(v) => FixedWidth(|v|)
    case Text(_) => Str
  }

  function ShapesOf(fs: seq<Field>): (r: seq<Shape>)
    ensures |r| == |fs|
  {
    if fs == [] then [] else [ShapeOf(fs[0])] + ShapesOf(fs[1..])
  }

  /** The bytes one field puts on the wire. */
  function Wire(f: Field): Bytes
  {
    match f
    case Fixed(v) => v
    case Text(s) => s + [0]
  }

  /** The bytes a sequence of fields puts on the wire, in order. */
  function Encode(fs: seq<Field>): Bytes
  {
    if fs == [] then [] else Wire(fs[0]) + Encode(fs[1..])
  }

  /** Every string field is free of NUL bytes, so its terminator is its own. */
  predicate Sendable(fs: seq<Field>)
  {
    fs == [] || ((fs[0].Text? ==> NulFree(fs[0].chars)) && Sendable(fs[1..]))
  }

  /** One `get<T>` (defaulting to zero, as a `Blob` does) or one `getStr`. */
  function DecodeOne(data: Bytes, shape: Shape): (r: (Field, Bytes))
  {
    match shape
    case FixedWidth(w) =>
      var p := TakeFixed(data, Zero(w));
      (Fixed(p.0), p.1)
    case Str =>
      var p := TakeStr(data);
      (Text(p.0), p.1)
  }

  /** A run of reads of the given shapes: the fields read and the bytes left. */
  function Decode(data: Bytes, shapes: seq<Shape>): (r: (seq<Field>, Bytes))
    ensures |r.0| == |shapes|
    decreases shapes
  {
    if shapes == [] then ([], data)
    else
      var one := DecodeOne(data, shapes[0]);
      var more := Decode(one.1, shapes[1..]);
      ([one.0] + more.0, more.1)
  }

  /** A single field is read back unchanged. */
  lemma OneRoundTrip(f: Field, rest: Bytes)
    requires f.Text? ==> NulFree(f.chars)
    ensures DecodeOne(Wire(f) + rest, ShapeOf(f)) == (f, rest)
  {
    match f
    case Fixed(v) =>
      TakeFixedFull(v + rest, Zero(|v|));
      assert (v + rest)[..|v|] == v;
      assert (v + rest)[|v|..] == rest;
    case Text(s) =>
      StrRoundTrip(s, rest);
  }

  /**
   * Round trip: fields written one after another are read back unchanged by
   * reads of the same shapes in the same order, whatever follows them.
   */
  lemma {:induction false} RoundTrip(fs: seq<Field>, rest: Bytes)
    requires Sendable(fs)
    ensures Decode(Encode(fs) + rest, ShapesOf(fs)) == (fs, rest)
  {
    if fs == [] {
      assert Encode(fs) + rest == rest;
    } else {
      var x := Encode(fs[1..]) + rest;
      var data, shapes := Encode(fs) + rest, ShapesOf(fs);
      assert data == Wire(fs[0]) + x;
      assert shapes[0] == ShapeOf(fs[0]) && shapes[1..] == ShapesOf(fs[1..]);
      assert DecodeOne(data, shapes[0]) == (fs[0], x) by {
        OneRoundTrip(fs[0], x);
      }
      assert Decode(x, shapes[1..]) == (fs[1..], rest) by {
        RoundTrip(fs[1..], rest);
      }
      assert Decode(data, shapes) == ([fs[0]] + fs[1..], rest);
      assert fs == [fs[0]] + fs[1..];
    }
  }

  // ---------------------------------------------------------------------
  // The packet object
  // ---------------------------------------------------------------------

  class Packet {
    var buffer: Bytes
    var bytes: int
    var offset: int

    /** The cursor lies within the written part, which lies within the vector. */
    ghost predicate Valid()
      reads this
    {
      0 <= offset <= bytes <= |buffer|
    }

    /** `Packet()`: an empty packet. */
    constructor ()
      ensures Valid() && buffer == [] && bytes == 0 && offset == 0
      ensures Remaining() == []
    {
      buffer := [];
      bytes := 0;
      offset := 0;
    }

    /** `Packet(buffer, bytes)`: a received datagram of n bytes, read from the start. */
    constructor FromBuffer(buf: Bytes, n: int)
      requires 0 <= n <= |buf|
      ensures Valid() && buffer == buf && bytes == n && offset == 0
      ensures Remaining() == buf[..n]
    {
      buffer := buf;
      bytes := n;
      offset := 0;
    }

    /** `remaining()`: the unread bytes, from the cursor to the written end. */
    function Remaining(): (r: Bytes)
      reads this
      requires Valid()
      ensures |r| == Size()
    {
      buffer[offset..bytes]
    }

    /** `data()`: the vector seen from the read cursor on; it starts with the unread bytes. */
    function Data(): (r: Bytes)
      reads this
      requires Valid()
      ensures Size() <= |r| && r[..Size()] == Remaining()
    {
      buffer[offset..]
    }

    /** `size()`: how many bytes are left to read. */
    function Size(): (r: int)
      reads this
      requires Valid()
      ensures r >= 0 && offset + r == bytes
    {
      bytes - offset
    }

    /**
     * Store one byte at the write end: overwrite the cell there when the
     * vector reaches past it, append otherwise (the step `add` and `addStr`
     * repeat for every byte).
     */
    method Put(x: bv8)
      requires Valid()
      modifies this
      ensures Valid()
      ensures buffer == Written(old(buffer), old(bytes), [x])
      ensures bytes == old(bytes) + 1 && offset == old(offset)
    {
      WrittenOne(buffer, bytes, x);
      if |buffer| > bytes {
        buffer := buffer[bytes := x];
        bytes := bytes + 1;
      } else {
        buffer := buffer + [x];
        bytes := bytes + 1;
      }
    }

    /** `add<T>(t)`: store the raw bytes of t at the write end. */
    method Add(t: Bytes)
      requires Valid()
      modifies this
      ensures Valid()
      ensures buffer == Written(old(buffer), old(bytes), t)
      ensures bytes == old(bytes) + |t| && offset == old(offset)
      ensures Remaining() == old(Remaining()) + t
    {
      ghost var buf0, at := buffer, bytes;
      var i := 0;
      while i < |t|
        invariant 0 <= i <= |t|
        invariant at <= |buf0|
        invariant bytes == at + i && offset == old(offset)
        invariant buffer == Written(buf0, at, t[..i])
        invariant Valid()
      {
        AppendStep(buf0, at, t, i);
        Put(t[i]);
        i := i + 1;
      }
      assert t[..i] == t;
      assert Remaining() == old(Remaining()) + t by {
        WrittenUnread(buf0, offset, at, t);
      }
    }

    /** `add(ptr, n)`: store the first n bytes at `ptr`. */
    method AddRaw(ptr: Bytes, n: int)
      requires Valid() && 0 <= n <= |ptr|
      modifies this
      ensures Valid()
      ensures buffer == Written(old(buffer), old(bytes), ptr[..n])
      ensures bytes == old(bytes) + n && offset == old(offset)
      ensures Remaining() == old(Remaining()) + ptr[..n]
    {
      Add(ptr[..n]);
    }

    /** `addStr(s)`: store the characters of s, by the same byte loop as `add`, then one NUL. */
    method AddStr(s: Bytes)
      requires Valid()
      modifies this
      ensures Valid()
      ensures buffer == Written(old(buffer), old(bytes), s + [0])
      ensures bytes == old(bytes) + |s| + 1 && offset == old(offset)
      ensures Remaining() == old(Remaining()) + s + [0]
    {
      ghost var buf0, at := buffer, bytes;
      Add(s);
      Put(0);
      assert buffer == Written(buf0, at, s + [0]) by {
        WrittenTwice(buf0, at, s, [0]);
      }
      assert Remaining() == old(Remaining()) + (s + [0]) by {
        WrittenUnread(buf0, offset, at, s + [0]);
      }
    }

    /**
     * `get<T>()`: read a value of |init| bytes, where init holds the bytes of
     * a default-constructed T. The cursor moves by the bytes taken, never past
     * the written end.
     */
    method Get(init: Bytes) returns (t: Bytes)
      requires Valid()
      modifies this`offset
      ensures Valid()
      ensures (t, Remaining()) == TakeFixed(old(Remaining()), init)
      ensures offset == old(offset) + Min(|init|, old(Size()))
    {
      ghost var data := Remaining();
      t := init;
      var i := 0;
      while i < |init|
        invariant 0 <= i <= |init| && |t| == |init|
        invariant offset == old(offset) + Min(i, |data|)
        invariant forall j | 0 <= j < i :: t[j] == TakeFixed(data, init).0[j]
        invariant forall j | i <= j < |init| :: t[j] == init[j]
        invariant Valid()
      {
        if offset < bytes {
          t := t[i := buffer[offset]];
          offset := offset + 1;
        }
        i := i + 1;
      }
      assert t == TakeFixed(data, init).0;
      assert Remaining() == data[Min(|init|, |data|)..];
    }

    /** `getStr()`: read up to and including the next NUL, or to the end. */
    method GetStr() returns (s: Bytes)
      requires Valid()
      modifies this`offset
      ensures Valid()
      ensures (s, Remaining()) == TakeStr(old(Remaining()))
    {
      ghost var data := Remaining();
      s := [];
      var done := false;
      while offset < bytes && !done
        invariant old(offset) <= offset <= bytes
        invariant done ==> old(offset) < offset && data[offset - 1 - old(offset)] == 0
        invariant s == data[..offset - old(offset) - (if done then 1 else 0)]
        invariant forall j | 0 <= j < offset - old(offset) - (if done then 1 else 0) :: data[j] != 0
        invariant Valid()
        decreases bytes - offset, if done then 0 else 1
      {
        if buffer[offset] == 0 {
          offset := offset + 1;
          done := true;
        } else {
          s := s + [buffer[offset]];
          offset := offset + 1;
        }
      }
      var k := NulIndex(data);
      assert k == offset - old(offset) - (if done then 1 else 0);
      assert Remaining() == if k < |data| then data[k + 1..] else [];
    }

    /** `skip(n)`: move the cursor forward by n, stopping at the written end. */
    method Skip(n: int)
      requires Valid()
      modifies this`offset
      ensures Valid()
      ensures old(offset) <= offset <= bytes
      ensures Remaining() == old(Remaining())[if n <= 0 then 0 else Min(n, old(Size()))..]
    {
      if n > 0 {
        offset := offset + Min(n, bytes - offset);
      }
    }
  }
}
