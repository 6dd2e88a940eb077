/** The RDB snapshot decoder, against an encoder for the format it reads. */
module Rdb {
  import opened Bytes
  import opened Decimal

  datatype Entry = Entry(key: Bytes, value: Bytes, expireAt: int)

  /** The file's bytes, and what its read buffer holds beyond them. An index is checked against the bytes,
      but a slice only against the whole buffer. */
  datatype File = File(bytes: Bytes, spare: Bytes) {
    function Buffer(): Bytes {
      bytes + spare
    }
  }

  datatype Read<T> = Got(value: T, next: nat) | ReadPanic

  datatype Outcome =
    | Loaded(entries: map<Bytes, Entry>)
    | UnsupportedType(entries: map<Bytes, Entry>, valueType: Byte)
    | Panicked

  const EOF: Byte := 0xFF
  const SELECT_DB: Byte := 0xFE
  const EXPIRE_SECONDS: Byte := 0xFD
  const EXPIRE_MILLIS: Byte := 0xFC
  const RESIZE_DB: Byte := 0xFB
  const AUX: Byte := 0xFA
  const STRING_VALUE: Byte := 0x00

  const HEADER: nat := 9

  predicate IsOpcode(b: Byte)
  {
    b >= AUX
  }

  // ---------------------------------------------------------------- fixed-width integers

  function LittleEndian(s: Bytes): (n: nat)
  {
    if |s| == 0 then 0 else s[0] as nat + 256 * LittleEndian(s[1..])
  }

  function BigEndian(s: Bytes): (n: nat)
  {
    if |s| == 0 then 0 else BigEndian(s[..|s| - 1]) * 256 + s[|s| - 1] as nat
  }

  function Power256(width: nat): (p: nat)
    ensures p >= 1
  {
    if width == 0 then 1 else 256 * Power256(width - 1)
  }

  /** The value of `width` bytes read as a two's-complement number. */
  function Signed(n: nat, width: nat): int
  {
    if 2 * n < Power256(width) then n else n - Power256(width)
  }

  function ToLittleEndian(n: nat, width: nat): (s: Bytes)
    ensures |s| == width
  {
    if width == 0 then [] else [(n % 256) as Byte] + ToLittleEndian(n / 256, width - 1)
  }

  function ToBigEndian(n: nat, width: nat): (s: Bytes)
    ensures |s| == width
  {
    if width == 0 then [] else ToBigEndian(n / 256, width - 1) + [(n % 256) as Byte]
  }

  predicate Fits(n: int, width: nat)
  {
    var p: int := Power256(width);
    -p <= 2 * n < p
  }

  function TwosComplement(n: int, width: nat): (u: nat)
    requires Fits(n, width)
    ensures u < Power256(width)
  {
    if n < 0 then n + Power256(width) else n
  }

  lemma {:induction false} LittleEndianReadsBack(n: nat, width: nat)
    requires n < Power256(width)
    ensures LittleEndian(ToLittleEndian(n, width)) == n
  {
    if width > 0 {
      LittleEndianReadsBack(n / 256, width - 1);
      assert ToLittleEndian(n, width)[1..] == ToLittleEndian(n / 256, width - 1);
    }
  }

  lemma {:induction false} BigEndianReadsBack(n: nat, width: nat)
    requires n < Power256(width)
    ensures BigEndian(ToBigEndian(n, width)) == n
  {
    if width > 0 {
      BigEndianReadsBack(n / 256, width - 1);
      var s := ToBigEndian(n, width);
      assert s[..|s| - 1] == ToBigEndian(n / 256, width - 1);
    }
  }

  lemma SignedReadsBack(n: int, width: nat)
    requires Fits(n, width)
    ensures Signed(LittleEndian(ToLittleEndian(TwosComplement(n, width), width)), width) == n
  {
    LittleEndianReadsBack(TwosComplement(n, width), width);
  }

  // ---------------------------------------------------------------- the decoder

  function Slice(data: File, lo: nat, hi: nat): (r: Read<Bytes>)
    requires lo <= hi
  {
    if hi <= |data.Buffer()| then Got(data.Buffer()[lo..hi], hi) else ReadPanic
  }

  function ReadLength(data: File, pos: nat): (r: Read<nat>)
    ensures r.Got? ==> pos < r.next
  {
    if pos >= |data.bytes| then ReadPanic
    else
      var b := data.bytes[pos];
      match b as nat / 64
      case 0 => Got(b as nat % 64, pos + 1)
      case 1 =>
        if pos + 1 >= |data.bytes| then ReadPanic
        else Got(b as nat % 64 * 256 + data.bytes[pos + 1] as nat, pos + 2)
      case 2 =>
        (match Slice(data, pos + 1, pos + 5)
         case Got(s, next) => Got(BigEndian(s), next)
         case ReadPanic => ReadPanic)
      case _ => Got(b as nat, pos + 1)
  }

  function ReadInteger(data: File, pos: nat, width: nat): (r: Read<Bytes>)
    ensures r.Got? ==> pos + width == r.next
  {
    match Slice(data, pos, pos + width)
    case Got(s, next) => Got(Itoa(Signed(LittleEndian(s), width)), next)
    case ReadPanic => ReadPanic
  }

  function ReadString(data: File, pos: nat): (r: Read<Bytes>)
    ensures r.Got? ==> pos < r.next
  {
    if pos >= |data.bytes| then ReadPanic
    else
      var b := data.bytes[pos] as nat;
      if b / 64 == 3 then
        match b % 64
        case 0 => if pos + 1 >= |data.bytes| then ReadPanic else ReadInteger(data, pos + 1, 1)
        case 1 => ReadInteger(data, pos + 1, 2)
        case 2 => ReadInteger(data, pos + 1, 4)
        case _ => ReadPanic
      else
        match ReadLength(data, pos)
        case Got(length, next) => Slice(data, next, next + length)
        case ReadPanic => ReadPanic
  }

  /** What one turn of the record loop does. */
  datatype Turn =
    | Stop(outcome: Outcome)
    | Again(pos: nat, entries: map<Bytes, Entry>, pending: int)

  /** One turn, from a position that still holds a byte. */
  function TurnAt(data: File, pos: nat, entries: map<Bytes, Entry>, pending: int): (t: Turn)
    requires pos < |data.bytes|
    ensures t.Again? ==> pos < t.pos
  {
    var op := data.bytes[pos];
    if op == EOF then Stop(Loaded(entries))
    else if op == SELECT_DB then
      match ReadLength(data, pos + 1)
      case ReadPanic => Stop(Panicked)
      case Got(_, next) => Again(next, entries, pending)
    else if op == RESIZE_DB then
      match ReadLength(data, pos + 1)
      case ReadPanic => Stop(Panicked)
      case Got(_, next) =>
        (match ReadLength(data, next)
         case ReadPanic => Stop(Panicked)
         case Got(_, last) => Again(last, entries, pending))
    else if op == AUX then
      match ReadString(data, pos + 1)
      case ReadPanic => Stop(Panicked)
      case Got(_, next) =>
        (match ReadString(data, next)
         case ReadPanic => Stop(Panicked)
         case Got(_, last) => Again(last, entries, pending))
    else if op == EXPIRE_SECONDS then
      match Slice(data, pos + 1, pos + 5)
      case ReadPanic => Stop(Panicked)
      case Got(s, next) => Again(next, entries, LittleEndian(s) * 1000)
    else if op == EXPIRE_MILLIS then
      match Slice(data, pos + 1, pos + 9)
      case ReadPanic => Stop(Panicked)
      case Got(s, next) => Again(next, entries, Signed(LittleEndian(s), 8))
    else
      match ReadString(data, pos + 1)
      case ReadPanic => Stop(Panicked)
      case Got(key, next) =>
        if op != STRING_VALUE then Stop(UnsupportedType(entries, op))
        else
          match ReadString(data, next)
          case ReadPanic => Stop(Panicked)
          case Got(value, last) => Again(last, entries[key := Entry(key, value, pending)], 0)
  }

  function Decode(data: File, pos: nat, entries: map<Bytes, Entry>, pending: int): Outcome
    decreases |data.bytes| - pos
  {
    if pos >= |data.bytes| then Loaded(entries)
    else
      match TurnAt(data, pos, entries, pending)
      case Stop(outcome) => outcome
      case Again(next, entries', pending') => Decode(data, next, entries', pending')
  }

  /** The record loop. */
  method ReadRDBFile(data: File) returns (outcome: Outcome)
    ensures outcome == Decode(data, HEADER, map[], 0)
  {
    var result: map<Bytes, Entry> := map[];
    var pos, pendingExpiry: int := HEADER, 0;
    while pos < |data.bytes|
      invariant Decode(data, pos, result, pendingExpiry) == Decode(data, HEADER, map[], 0)
      decreases |data.bytes| - pos
    {
      var op := data.bytes[pos];
      ghost var turn := TurnAt(data, pos, result, pendingExpiry);
      pos := pos + 1;
      if op == EOF {
        return Loaded(result);
      } else if op == SELECT_DB {
        var db := ReadLength(data, pos);
        if db.ReadPanic? {
          return Panicked;
        }
        pos := db.next;
      } else if op == RESIZE_DB {
        var size := ReadLength(data, pos);
        if size.ReadPanic? {
          return Panicked;
        }
        var expires := ReadLength(data, size.next);
        if expires.ReadPanic? {
          return Panicked;
        }
        pos := expires.next;
      } else if op == AUX {
        var name := ReadString(data, pos);
        if name.ReadPanic? {
          return Panicked;
        }
        var setting := ReadString(data, name.next);
        if setting.ReadPanic? {
          return Panicked;
        }
        pos := setting.next;
      } else if op == EXPIRE_SECONDS {
        var secs := Slice(data, pos, pos + 4);
        if secs.ReadPanic? {
          return Panicked;
        }
        pendingExpiry := LittleEndian(secs.value) * 1000;
        pos := secs.next;
      } else if op == EXPIRE_MILLIS {
        var ms := Slice(data, pos, pos + 8);
        if ms.ReadPanic? {
          return Panicked;
        }
        pendingExpiry := Signed(LittleEndian(ms.value), 8);
        pos := ms.next;
      } else {
        var key := ReadString(data, pos);
        if key.ReadPanic? {
          return Panicked;
        }
        if op != STRING_VALUE {
          return UnsupportedType(result, op);
        }
        var value := ReadString(data, key.next);
        if value.ReadPanic? {
          return Panicked;
        }
        result := result[key.value := Entry(key.value, value.value, pendingExpiry)];
        pos := value.next;
        pendingExpiry := 0;
      }
      assert turn == Again(pos, result, pendingExpiry);
    }
    return Loaded(result);
  }
}
