/**
 * The terminal front end of the peer demo: what one typed line makes the
 * program do, and the parser of the `@<hex id> <text>` direct-message form.
 *
 * The parser reads the characters after '@' up to the first space as hex
 * digits: the k-th of them (k from 0) is OR-ed into byte 15 - k/2 of a
 * zeroed id, into the high nibble when k is even and the low nibble when it
 * is odd, so that `@` followed by the 32-digit form of an id names that id.
 * Characters other than 0-9 and a-f add nothing but still take up their
 * nibble position.
 */
module Console {
  import opened Blobs
  import opened Routing
  import Protocol

  // ---------------------------------------------------------------------
  // Hex digits
  // ---------------------------------------------------------------------

  /** A character the parser takes as a digit: 0-9 and lowercase a-f. */
  predicate IsHex(c: char)
  {
    '0' <= c <= '9' || 'a' <= c <= 'f'
  }

  /** The value of a hex digit; anything else counts as zero. */
  function HexDigitValue(c: char): (v: nat)
    ensures v < 16
  {
    if '0' <= c <= '9' then c as int - '0' as int
    else if 'a' <= c <= 'f' then c as int - 'a' as int + 10
    else 0
  }

  /** `HexDigitValue` as a byte. */
  function HexValue(c: char): (v: bv8)
    ensures v as int == HexDigitValue(c)
  {
    HexDigitValue(c) as bv8
  }

  /** Reading back the digit `hex` prints for a nibble gives the nibble. */
  lemma DigitValue(n: nat)
    requires n < 16
    ensures IsHex(Digits[n]) && HexValue(Digits[n]) as int == n
  {
    if n < 10 {
      assert Digits[n] as int == '0' as int + n;
    } else {
      assert Digits[n] as int == 'a' as int + n - 10;
    }
  }

  /** A high and a low nibble OR-ed together make the byte they were cut from. */
  lemma NibblesMake(x: bv8, hi: bv8, lo: bv8)
    requires hi as int == x as int / 16 && lo as int == x as int % 16
    ensures (hi << 4) | lo == x
  {
    assert ((hi << 4) | lo) as int == hi as int * 16 + lo as int;
  }

  // ---------------------------------------------------------------------
  // Splitting the line
  // ---------------------------------------------------------------------

  /** The index of the first space at or after i, or |line| when there is none. */
  function SpaceAt(line: seq<char>, i: nat): (j: nat)
    requires i <= |line|
    ensures i <= j <= |line|
    ensures forall k | i <= k < j :: line[k] != ' '
    ensures j < |line| ==> line[j] == ' '
    decreases |line| - i
  {
    if i == |line| || line[i] == ' ' then i else SpaceAt(line, i + 1)
  }

  /** The id field: what follows the '@' up to the first space. */
  function Field(line: seq<char>): (f: seq<char>)
    requires |line| > 0
    ensures |f| < |line| && forall c | c in f :: c != ' '
  {
    line[1..SpaceAt(line, 1)]
  }

  /** The message: what follows the first space, or nothing when there is no space. */
  function Text(line: seq<char>): (t: seq<char>)
    requires |line| > 0
    ensures |Field(line)| + |t| < |line|
  {
    var j := SpaceAt(line, 1);
    if j < |line| then line[j + 1..] else []
  }

  // ---------------------------------------------------------------------
  // The destination id
  // ---------------------------------------------------------------------

  /**
   * Byte b of the id once the first k field positions are read: the digit
   * at position 2(15-b) in its high nibble and the one after it in its low
   * nibble, each only if already read.
   */
  function ByteAt(field: seq<char>, b: nat, k: nat): bv8
    requires b < IdSize && k <= |field|
  {
    var hi := 2 * (IdSize - 1 - b);
    (if hi < k then HexValue(field[hi]) << 4 else 0) | (if hi + 1 < k then HexValue(field[hi + 1]) else 0)
  }

  /** The id a field names; positions past the 32nd fill nothing. */
  function Destination(field: seq<char>): (d: Bytes)
    ensures |d| == IdSize
  {
    seq(IdSize, b requires 0 <= b < IdSize => ByteAt(field, b, |field|))
  }

  /** The destination and the message of an `@` line. */
  function Parse(line: seq<char>): (r: (Bytes, seq<char>))
    requires |line| > 0
    ensures |r.0| == IdSize && |r.1| < |line|
  {
    (Destination(Field(line)), Text(line))
  }

  /**
   * Where the source writes the digit at field position k: byte 15 - k/2,
   * which is below the array for every k from 32 on.
   */
  function WriteIndex(k: nat): (idx: int)
    ensures idx < 0 <==> k >= 2 * IdSize
  {
    IdSize - 1 - k / 2
  }

  /** The field has a digit at a position the id has no byte for. */
  predicate Overruns(field: seq<char>)
  {
    exists k | 2 * IdSize <= k < |field| :: IsHex(field[k])
  }

  /** The digit c at field position k in its place: the high nibble at even positions, the low one at odd. */
  function Placed(c: char, k: nat): bv8
  {
    if k % 2 == 0 then HexValue(c) << 4 else HexValue(c)
  }

  /** Reading position k changes only byte 15 - k/2, by OR-ing in the digit's nibble. */
  lemma ByteAtStep(field: seq<char>, b: nat, k: nat)
    requires b < IdSize && k < |field|
    ensures ByteAt(field, b, k + 1) ==
      if b == WriteIndex(k) then ByteAt(field, b, k) | Placed(field[k], k)
      else ByteAt(field, b, k)
  {
    var hi := 2 * (IdSize - 1 - b);
    if b == WriteIndex(k) {
      assert k == hi || k == hi + 1;
    } else {
      assert k != hi && k != hi + 1;
    }
  }

  /** Bytes no digit position reaches stay zero: a short field names an id whose low bytes are zero. */
  lemma UnreachedZero(field: seq<char>, b: nat)
    requires b < IdSize && 2 * (IdSize - 1 - b) >= |field|
    ensures Destination(field)[b] == 0
  {
  }

  /**
   * The direct-message parser: loops over the characters after '@',
   * stopping after the first space, and OR-s each digit's nibble into a
   * zeroed id.  Where the source would write below the id (a digit past the
   * 32nd position) the model stops with None.
   */
  method ParseAt(line: seq<char>) returns (r: Protocol.Option<(Bytes, seq<char>)>)
    requires |line| > 0
    ensures r == if Overruns(Field(line)) then Protocol.None else Protocol.Some(Parse(line))
  {
    ghost var j := SpaceAt(line, 1);
    ghost var field := Field(line);
    var data := new bv8[IdSize](_ => 0);
    var i := 1;
    while i < |line| && line[i] != ' '
      invariant 1 <= i <= j && field == line[1..j]
      invariant Filled(field, data[..], i - 1)
      invariant forall k | 2 * IdSize <= k < i - 1 :: !IsHex(field[k])
    {
      assert field[i - 1] == line[i];
      var fits := Absorb(data, field, i - 1, line[i]);
      if !fits {
        assert 2 * IdSize <= i - 1 < |field| && IsHex(field[i - 1]);
        return Protocol.None;
      }
      i := i + 1;
    }
    // The source steps past the space before taking the rest of the line.
    var text := if i < |line| then line[i + 1..] else [];
    ParseEnd(line, i, data[..]);
    r := Protocol.Some((data[..], text));
  }

  /**
   * Leaving the loop at the first space, or at the end, with no digit past
   * the 32nd: the field does not overrun and the bytes and the rest of the
   * line are what Parse gives.
   */
  lemma ParseEnd(line: seq<char>, i: nat, d: seq<bv8>)
    requires 1 <= i <= |line| && i <= SpaceAt(line, 1) && (i == |line| || line[i] == ' ')
    requires Filled(Field(line), d, i - 1)
    requires forall k | 2 * IdSize <= k < i - 1 :: !IsHex(Field(line)[k])
    ensures !Overruns(Field(line))
    ensures Parse(line) == (d, if i < |line| then line[i + 1..] else [])
  {
    var j := SpaceAt(line, 1);
    assert i == j;
    FilledAll(Field(line), d, i - 1);
  }

  /**
   * One character of the field, at position k: a digit is OR-ed into its
   * byte; `fits` is false for a digit that has no byte to go to.
   */
  method Absorb(data: array<bv8>, ghost field: seq<char>, k: nat, c: char) returns (fits: bool)
    requires k < |field| && field[k] == c && Filled(field, data[..], k)
    modifies data
    ensures fits <==> !IsHex(c) || WriteIndex(k) >= 0
    ensures fits ==> Filled(field, data[..], k + 1)
  {
    if IsHex(c) {
      var index := WriteIndex(k);
      if index < 0 {
        return false;
      }
      ghost var before := data[..];
      data[index] := data[index] | Placed(c, k);
      assert data[..] == before[index := before[index] | Placed(c, k)];
      ReadDigit(field, k, before, data[..]);
    } else {
      ReadOther(field, k, data[..]);
    }
    fits := true;
  }

  /** The bytes d are what the first k positions of the field give. */
  ghost predicate Filled(field: seq<char>, d: seq<bv8>, k: nat)
  {
    |d| == IdSize && k <= |field| && forall b | 0 <= b < IdSize :: d[b] == ByteAt(field, b, k)
  }

  /** Reading a digit ORs its nibble into its byte and keeps every byte what the positions read so far give it. */
  lemma ReadDigit(field: seq<char>, k: nat, d0: seq<bv8>, d1: seq<bv8>)
    requires k < |field| && Filled(field, d0, k) && IsHex(field[k]) && WriteIndex(k) >= 0
    requires d1 == d0[WriteIndex(k) := d0[WriteIndex(k)] | Placed(field[k], k)]
    ensures Filled(field, d1, k + 1)
  {
    forall b | 0 <= b < IdSize
      ensures d1[b] == ByteAt(field, b, k + 1)
    {
      ByteAtStep(field, b, k);
    }
  }

  /** Reading any other character changes no byte. */
  lemma ReadOther(field: seq<char>, k: nat, d: seq<bv8>)
    requires k < |field| && Filled(field, d, k) && !IsHex(field[k])
    ensures Filled(field, d, k + 1)
  {
    forall b | 0 <= b < IdSize
      ensures d[b] == ByteAt(field, b, k + 1)
    {
      ByteAtStep(field, b, k);
    }
  }

  /** All positions read: the bytes are the destination. */
  lemma FilledAll(field: seq<char>, d: seq<bv8>, k: nat)
    requires Filled(field, d, k) && k == |field|
    ensures d == Destination(field)
  {
  }

  // ---------------------------------------------------------------------
  // Round trip with `hex`
  // ---------------------------------------------------------------------

  /** A field without spaces between '@' and a space is read whole, and the message is what follows. */
  lemma SplitsAtSpace(h: seq<char>, m: seq<char>)
    requires forall c | c in h :: c != ' '
    ensures var line := ['@'] + h + [' '] + m; Field(line) == h && Text(line) == m
  {
    var line := ['@'] + h + [' '] + m;
    assert line[|h| + 1] == ' ';
    forall k | 1 <= k < |h| + 1
      ensures line[k] != ' '
    {
      assert line[k] == h[k - 1] && h[k - 1] in h;
    }
    assert SpaceAt(line, 1) == |h| + 1;
  }

  /** Byte b read back from the first 2n digits of an id: the id's byte when reached, else zero. */
  lemma HexPrefixByte(id: Bytes, n: nat, b: nat)
    requires |id| == IdSize && n <= IdSize && b < IdSize
    ensures Destination(HexOf(id)[..2 * n])[b] == if b >= IdSize - n then id[b] else 0
  {
    var h := HexOf(id)[..2 * n];
    var hi := 2 * (IdSize - 1 - b);
    assert Destination(h)[b] == ByteAt(h, b, |h|);
    if b >= IdSize - n {
      assert hi + 1 < |h| == 2 * n;
      ByteRead(h, b);
      assert h[hi] == HexOf(id)[hi] && h[hi + 1] == HexOf(id)[hi + 1];
      HexPair(id, b);
      NibblesMake(id[b], HexValue(h[hi]), HexValue(h[hi + 1]));
    } else {
      assert |h| <= hi;
      assert ByteAt(h, b, |h|) == 0 | 0;
    }
  }

  /** A byte whose two positions were both read holds their digits. */
  lemma ByteRead(field: seq<char>, b: nat)
    requires b < IdSize && 2 * (IdSize - 1 - b) + 1 < |field|
    ensures var hi := 2 * (IdSize - 1 - b);
      ByteAt(field, b, |field|) == (HexValue(field[hi]) << 4) | HexValue(field[hi + 1])
  {
  }

  /** The two hex characters of byte b read back as its high and its low nibble. */
  lemma HexPair(id: Bytes, b: nat)
    requires |id| == IdSize && b < IdSize
    ensures var hi := 2 * (IdSize - 1 - b);
      HexValue(HexOf(id)[hi]) as int == id[b] as int / 16 &&
      HexValue(HexOf(id)[hi + 1]) as int == id[b] as int % 16
  {
    var hi := 2 * (IdSize - 1 - b);
    assert hi / 2 == IdSize - 1 - b && (hi + 1) / 2 == IdSize - 1 - b;
    assert hi % 2 == 0 && (hi + 1) % 2 == 1;
    HexDigitAt(id, hi);
    HexDigitAt(id, hi + 1);
  }

  /** Character k of the hex form reads back as the nibble it was printed from. */
  lemma HexDigitAt(id: Bytes, k: nat)
    requires k < 2 * |id|
    ensures HexValue(HexOf(id)[k]) as int == Nibble(id, k)
  {
    assert HexOf(id)[k] == Digits[Nibble(id, k)];
    DigitValue(Nibble(id, k));
  }

  /**
   * `@`, the first 2n hex digits of an id, a space and a message name the
   * id's top n bytes (the rest zero) and that message.  With n = 16 this is
   * the full id; `hex(id, true)` gives n = 2.
   */
  lemma ParseHexPrefix(id: Bytes, n: nat, m: seq<char>)
    requires |id| == IdSize && n <= IdSize
    ensures var line := ['@'] + HexOf(id)[..2 * n] + [' '] + m;
      !Overruns(Field(line)) &&
      Parse(line).1 == m &&
      forall b | 0 <= b < IdSize :: Parse(line).0[b] == if b >= IdSize - n then id[b] else 0
  {
    var h := HexOf(id)[..2 * n];
    forall c | c in h
      ensures c != ' '
    {
      assert c in Digits;
    }
    SplitsAtSpace(h, m);
    forall b | 0 <= b < IdSize
      ensures Destination(h)[b] == if b >= IdSize - n then id[b] else 0
    {
      HexPrefixByte(id, n, b);
    }
  }

  /** The full `hex` form of an id after '@' names exactly that id. */
  lemma ParseHex(id: Bytes, m: seq<char>)
    requires |id| == IdSize
    ensures var line := ['@'] + Hex(id, false) + [' '] + m;
      !Overruns(Field(line)) && Parse(line) == (id, m)
  {
    ParseHexPrefix(id, IdSize, m);
    assert HexOf(id)[..2 * IdSize] == Hex(id, false);
    var line := ['@'] + Hex(id, false) + [' '] + m;
    assert Parse(line).0 == id;
  }

  /** A line with 33 zero digits after '@': the 33rd is written below the id. */
  lemma OverrunExample()
    ensures var line := ['@'] + seq(2 * IdSize + 1, _ => '0');
      Overruns(Field(line)) && WriteIndex(2 * IdSize) == -1 && Parse(line) == (Zero(IdSize), [])
  {
    var line := ['@'] + seq(2 * IdSize + 1, _ => '0');
    assert forall k | 1 <= k < |line| :: line[k] == '0';
    assert SpaceAt(line, 1) == |line|;
    var field := Field(line);
    assert field[2 * IdSize] == '0';
    assert forall b | 0 <= b < IdSize :: Parse(line).0[b] == 0;
    assert Parse(line).0 == Zero(IdSize);
  }

  // ---------------------------------------------------------------------
  // Line dispatch
  // ---------------------------------------------------------------------

  /**
   * What the program does in response to a line, in order.  The text of a
   * broadcast or a send is kept as typed; the network is handed the bytes
   * of its characters, one byte per character.
   */
  datatype Action =
    | StopTerminal
    | Disconnect
    | StopNetwork
    | PrintInfo
    | Broadcast(text: seq<char>)
    | Send(text: seq<char>, destination: Bytes)

  /** The four words the terminal handles itself. */
  predicate IsCommand(line: seq<char>)
  {
    line == "exit" || line == "shutdown" || line == "info" || line == "info all"
  }

  /** A line naming a destination: it starts with '@'. */
  predicate IsDirect(line: seq<char>)
  {
    |line| > 0 && line[0] == '@'
  }

  /** The terminal callback: the commands, then `@` lines, then everything else broadcast as typed. */
  function Handle(line: seq<char>): (actions: seq<Action>)
    ensures |actions| > 0
  {
    if line == "exit" then [StopTerminal, Disconnect, StopNetwork]
    else if line == "shutdown" then [Broadcast(line), StopTerminal, Disconnect, StopNetwork]
    else if line == "info" then [PrintInfo]
    else if line == "info all" then [PrintInfo, Broadcast(line)]
    else if IsDirect(line) then
      var p := Parse(line);
      [Send(p.1, p.0)]
    else [Broadcast(line)]
  }

  /** No command starts with '@', so the cases do not overlap. */
  lemma CommandsAreNotDirect(line: seq<char>)
    ensures IsCommand(line) ==> !IsDirect(line)
  {
  }

  /**
   * Only "exit" and "shutdown" stop the program, and they end with the
   * terminal stopped, every cached peer told, and the network stopped, in
   * that order; "shutdown" first broadcasts itself so that every node stops.
   */
  lemma StopsOnExit(line: seq<char>)
    ensures StopNetwork in Handle(line) <==> line == "exit" || line == "shutdown"
    ensures StopNetwork in Handle(line) ==>
      Handle(line)[|Handle(line)| - 3..] == [StopTerminal, Disconnect, StopNetwork]
    ensures line == "shutdown" ==> Handle(line)[0] == Broadcast(line)
  {
  }

  /**
   * A broadcast always carries the line exactly as typed, and a line is
   * broadcast unless it is "exit", "info" or an `@` line.
   */
  lemma BroadcastsVerbatim(line: seq<char>)
    ensures forall a | a in Handle(line) && a.Broadcast? :: a.text == line
    ensures Broadcast(line) in Handle(line) <==> !(line == "exit" || line == "info" || IsDirect(line))
  {
    CommandsAreNotDirect(line);
  }

  /** A line is sent to one peer exactly when it starts with '@', and nothing else happens then. */
  lemma SendsOnlyDirect(line: seq<char>)
    ensures (exists a | a in Handle(line) :: a.Send?) <==> IsDirect(line)
    ensures IsDirect(line) ==> |Handle(line)| == 1 && Handle(line)[0].Send?
  {
    if IsDirect(line) {
      var a := Handle(line)[0];
      assert a in Handle(line) && a.Send?;
    }
  }

  /** `@`, the `hex` form of an id, a space and a message send that message to that id. */
  lemma SendToHex(id: Bytes, m: seq<char>)
    requires |id| == IdSize
    ensures Handle(['@'] + Hex(id, false) + [' '] + m) == [Send(m, id)]
  {
    ParseHex(id, m);
  }
}
