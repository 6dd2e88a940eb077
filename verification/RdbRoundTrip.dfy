/** What the snapshot decoder makes of every well-formed file. */
module RdbRoundTrip {
  import opened Bytes
  import opened Decimal
  import opened Rdb

  // ---------------------------------------------------------------- the format

  /** The three ways to write a length; the long one leaves six bits unused. */
  datatype LengthForm = Six | Fourteen | ThirtyTwo(unused: nat)

  predicate LengthOk(n: nat, form: LengthForm)
  {
    match form
    case Six => n < 64
    case Fourteen => n < 16384
    case ThirtyTwo(unused) => n < Power256(4) && unused < 64
  }

  function EncodeLength(n: nat, form: LengthForm): (s: Bytes)
    requires LengthOk(n, form)
    ensures |s| >= 1 && s[0] < 192
  {
    match form
    case Six => [n as Byte]
    case Fourteen => [(64 + n / 256) as Byte, (n % 256) as Byte]
    case ThirtyTwo(unused) => [(128 + unused) as Byte] + ToBigEndian(n, 4)
  }

  /** A string, written out or as a small integer. */
  datatype Text = Plain(bytes: Bytes, form: LengthForm) | Int8(n: int) | Int16(n: int) | Int32(n: int)

  predicate TextOk(t: Text)
  {
    match t
    case Plain(bytes, form) => LengthOk(|bytes|, form)
    case Int8(n) => Fits(n, 1)
    case Int16(n) => Fits(n, 2)
    case Int32(n) => Fits(n, 4)
  }

  function EncodeInt(tag: Byte, n: int, width: nat): (s: Bytes)
    requires Fits(n, width)
    ensures |s| == width + 1
  {
    [tag] + ToLittleEndian(TwosComplement(n, width), width)
  }

  function EncodeText(t: Text): (s: Bytes)
    requires TextOk(t)
    ensures |s| >= 1
  {
    match t
    case Plain(bytes, form) => EncodeLength(|bytes|, form) + bytes
    case Int8(n) => EncodeInt(192, n, 1)
    case Int16(n) => EncodeInt(193, n, 2)
    case Int32(n) => EncodeInt(194, n, 4)
  }

  /** The string a text stands for. */
  function Meaning(t: Text): Bytes
  {
    match t
    case Plain(bytes, _) => bytes
    case Int8(n) => Itoa(n)
    case Int16(n) => Itoa(n)
    case Int32(n) => Itoa(n)
  }

  datatype Record =
    | SelectDb(db: nat, form: LengthForm)
    | ResizeDb(size: nat, sizeForm: LengthForm, expires: nat, expiresForm: LengthForm)
    | Aux(name: Text, setting: Text)
    | ExpireSeconds(secs: nat)
    | ExpireMillis(ms: int)
    | Pair(key: Text, value: Text)

  predicate RecordOk(r: Record)
  {
    match r
    case SelectDb(db, form) => LengthOk(db, form)
    case ResizeDb(size, sizeForm, expires, expiresForm) => LengthOk(size, sizeForm) && LengthOk(expires, expiresForm)
    case Aux(name, setting) => TextOk(name) && TextOk(setting)
    case ExpireSeconds(secs) => secs < Power256(4)
    case ExpireMillis(ms) => Fits(ms, 8)
    case Pair(key, value) => TextOk(key) && TextOk(value)
  }

  function EncodeRecord(r: Record): (s: Bytes)
    requires RecordOk(r)
    ensures |s| >= 1
  {
    match r
    case SelectDb(db, form) => [SELECT_DB] + EncodeLength(db, form)
    case ResizeDb(size, sizeForm, expires, expiresForm) =>
      [RESIZE_DB] + EncodeLength(size, sizeForm) + EncodeLength(expires, expiresForm)
    case Aux(name, setting) => [AUX] + EncodeText(name) + EncodeText(setting)
    case ExpireSeconds(secs) => [EXPIRE_SECONDS] + ToLittleEndian(secs, 4)
    case ExpireMillis(ms) => [EXPIRE_MILLIS] + ToLittleEndian(TwosComplement(ms, 8), 8)
    case Pair(key, value) => [STRING_VALUE] + EncodeText(key) + EncodeText(value)
  }

  predicate RecordsOk(rs: seq<Record>)
  {
    forall i :: 0 <= i < |rs| ==> RecordOk(rs[i])
  }

  function EncodeRecords(rs: seq<Record>): Bytes
    requires RecordsOk(rs)
  {
    if |rs| == 0 then [] else EncodeRecords(rs[..|rs| - 1]) + EncodeRecord(rs[|rs| - 1])
  }

  /** The format in bytes: how a record starts, and what follows. */
  lemma RecordBytes(r: Record)
    requires RecordOk(r)
    ensures match r
      case SelectDb(db, form) => EncodeRecord(r) == [0xFE] + EncodeLength(db, form)
      case ResizeDb(size, sizeForm, expires, expiresForm) =>
        EncodeRecord(r) == [0xFB] + EncodeLength(size, sizeForm) + EncodeLength(expires, expiresForm)
      case Aux(name, setting) => EncodeRecord(r) == [0xFA] + EncodeText(name) + EncodeText(setting)
      case ExpireSeconds(secs) => EncodeRecord(r) == [0xFD] + ToLittleEndian(secs, 4)
      case ExpireMillis(ms) => EncodeRecord(r) == [0xFC] + ToLittleEndian(TwosComplement(ms, 8), 8)
      case Pair(key, value) => EncodeRecord(r) == [0x00] + EncodeText(key) + EncodeText(value)
    ensures EOF == 0xFF && HEADER == |Ascii("REDIS0011")|
  {
  }

  /** ... how a text starts, and what follows. */
  lemma TextBytes(x: Text)
    requires TextOk(x)
    ensures match x
      case Plain(bytes, form) =>
        var n := |bytes|;
        && EncodeText(x) == EncodeLength(n, form) + bytes
        && (match form
            case Six => EncodeLength(n, form) == [n as Byte]
            case Fourteen => EncodeLength(n, form) == [(0x40 + n / 256) as Byte, (n % 256) as Byte]
            case ThirtyTwo(unused) => EncodeLength(n, form) == [(0x80 + unused) as Byte] + ToBigEndian(n, 4))
      case Int8(n) => EncodeText(x) == [0xC0] + ToLittleEndian(TwosComplement(n, 1), 1)
      case Int16(n) => EncodeText(x) == [0xC1] + ToLittleEndian(TwosComplement(n, 2), 2)
      case Int32(n) => EncodeText(x) == [0xC2] + ToLittleEndian(TwosComplement(n, 4), 4)
  {
  }

  /** ... and the two byte orders. */
  lemma ByteOrders()
    ensures ToLittleEndian(0x01020304, 4) == [4, 3, 2, 1] && ToBigEndian(0x01020304, 4) == [1, 2, 3, 4]
    ensures Power256(1) == 0x100 && Power256(2) == 0x1_0000 && Power256(4) == 0x1_0000_0000
    ensures Fits(-128, 1) && Fits(127, 1) && !Fits(-129, 1) && !Fits(128, 1) && TwosComplement(-2, 1) == 0xFE
  {
    assert Power256(3) == 0x100_0000;
  }

  // ---------------------------------------------------------------- what a file means

  /** The expiry a pair at index `i` carries: that of the last expiry record since the pair before it. */
  function ExpiryAt(rs: seq<Record>, i: nat): int
    requires i <= |rs|
  {
    if i == 0 then 0
    else
      match rs[i - 1]
      case Pair(_, _) => 0
      case ExpireSeconds(secs) => secs * 1000
      case ExpireMillis(ms) => ms
      case _ => ExpiryAt(rs, i - 1)
  }

  predicate PairFor(rs: seq<Record>, i: nat, key: Bytes)
    requires i < |rs|
  {
    rs[i].Pair? && Meaning(rs[i].key) == key
  }

  predicate LastPairFor(rs: seq<Record>, i: nat, key: Bytes)
    requires i < |rs|
  {
    PairFor(rs, i, key) && forall j :: i < j < |rs| ==> !PairFor(rs, j, key)
  }

  /** The map of a file: each key with the value of its last pair, under the expiry written just before it. */
  ghost predicate LastWrites(rs: seq<Record>, m: map<Bytes, Entry>)
  {
    && (forall key :: key in m ==> exists i :: 0 <= i < |rs| && LastPairFor(rs, i, key))
    && (forall key, i :: 0 <= i < |rs| && LastPairFor(rs, i, key) ==>
          key in m && m[key] == Entry(key, Meaning(rs[i].value), ExpiryAt(rs, i)))
  }

  // ---------------------------------------------------------------- encodings at a position

  /** `e` stands in the file at `pos`. */
  predicate Has(data: File, pos: nat, e: Bytes)
  {
    pos + |e| <= |data.bytes| && data.bytes[pos..pos + |e|] == e
  }

  lemma HasSplit(data: File, pos: nat, a: Bytes, b: Bytes)
    requires Has(data, pos, a + b)
    ensures Has(data, pos, a) && Has(data, pos + |a|, b)
  {
    assert data.bytes[pos..pos + |a|] == (a + b)[..|a|] == a;
    assert data.bytes[pos + |a|..pos + |a| + |b|] == (a + b)[|a|..] == b;
  }

  lemma HasByte(data: File, pos: nat, e: Bytes, i: nat)
    requires Has(data, pos, e) && i < |e|
    ensures data.bytes[pos + i] == e[i]
  {
    assert data.bytes[pos..pos + |e|][i] == data.bytes[pos + i];
  }

  lemma SliceHas(data: File, pos: nat, e: Bytes)
    requires Has(data, pos, e)
    ensures Slice(data, pos, pos + |e|) == Got(e, pos + |e|)
  {
    assert data.Buffer()[pos..pos + |e|] == data.bytes[pos..pos + |e|];
  }

  lemma LengthReadsBack(data: File, pos: nat, n: nat, form: LengthForm)
    requires LengthOk(n, form) && Has(data, pos, EncodeLength(n, form))
    ensures ReadLength(data, pos) == Got(n, pos + |EncodeLength(n, form)|)
  {
    var e := EncodeLength(n, form);
    HasByte(data, pos, e, 0);
    match form {
      case Six =>
      case Fourteen =>
        HasByte(data, pos, e, 1);
      case ThirtyTwo(unused) =>
        HasSplit(data, pos, [e[0]], ToBigEndian(n, 4));
        SliceHas(data, pos + 1, ToBigEndian(n, 4));
        BigEndianReadsBack(n, 4);
        assert data.bytes[pos] as nat / 64 == 2 && |ToBigEndian(n, 4)| == 4;
    }
  }

  lemma IntegerReadsBack(data: File, pos: nat, tag: Byte, n: int, width: nat)
    requires Fits(n, width) && Has(data, pos, EncodeInt(tag, n, width))
    ensures ReadInteger(data, pos + 1, width) == Got(Itoa(n), pos + 1 + width)
    ensures data.bytes[pos] == tag
  {
    var e := ToLittleEndian(TwosComplement(n, width), width);
    HasByte(data, pos, [tag] + e, 0);
    HasSplit(data, pos, [tag], e);
    SliceHas(data, pos + 1, e);
    SignedReadsBack(n, width);
  }

  lemma TextReadsBack(data: File, pos: nat, t: Text)
    requires TextOk(t) && Has(data, pos, EncodeText(t))
    ensures ReadString(data, pos) == Got(Meaning(t), pos + |EncodeText(t)|)
  {
    match t {
      case Plain(bytes, form) =>
        var e := EncodeLength(|bytes|, form);
        HasSplit(data, pos, e, bytes);
        HasByte(data, pos, e, 0);
        LengthReadsBack(data, pos, |bytes|, form);
        SliceHas(data, pos + |e|, bytes);
      case Int8(n) =>
        IntegerReadsBack(data, pos, 192, n, 1);
      case Int16(n) =>
        IntegerReadsBack(data, pos, 193, n, 2);
      case Int32(n) =>
        IntegerReadsBack(data, pos, 194, n, 4);
    }
  }

  /** What the encoder never writes: as a length, a byte from 192 on is itself; as a string, one from 195 on
      announces a compressed string, or nothing known, and panics. */
  lemma OtherForms(data: File, pos: nat)
    requires pos < |data.bytes|
    ensures data.bytes[pos] >= 0xC0 ==> ReadLength(data, pos) == Got(data.bytes[pos] as nat, pos + 1)
    ensures data.bytes[pos] >= 0xC3 ==> ReadString(data, pos) == ReadPanic
  {
  }

  // ---------------------------------------------------------------- one record, then all of them

  function EntriesAfter(r: Record, m: map<Bytes, Entry>, pending: int): map<Bytes, Entry>
  {
    if r.Pair? then m[Meaning(r.key) := Entry(Meaning(r.key), Meaning(r.value), pending)] else m
  }

  /** The expiry left waiting after a record. */
  function PendingAfter(r: Record, pending: int): int
  {
    match r
    case Pair(_, _) => 0
    case ExpireSeconds(secs) => secs * 1000
    case ExpireMillis(ms) => ms
    case _ => pending
  }

  lemma Tagged(data: File, pos: nat, tag: Byte, e: Bytes)
    requires Has(data, pos, [tag] + e)
    ensures pos < |data.bytes| && data.bytes[pos] == tag && Has(data, pos + 1, e)
  {
    HasByte(data, pos, [tag] + e, 0);
    HasSplit(data, pos, [tag], e);
  }

  lemma TaggedTwo(data: File, pos: nat, tag: Byte, a: Bytes, b: Bytes)
    requires Has(data, pos, [tag] + a + b)
    ensures pos < |data.bytes| && data.bytes[pos] == tag && Has(data, pos + 1, a) && Has(data, pos + 1 + |a|, b)
  {
    HasSplit(data, pos, [tag] + a, b);
    Tagged(data, pos, tag, a);
  }

  lemma PairReadsBack(data: File, pos: nat, key: Text, value: Text, m: map<Bytes, Entry>, pending: int)
    requires TextOk(key) && TextOk(value) && Has(data, pos, [STRING_VALUE] + EncodeText(key) + EncodeText(value))
    ensures pos < |data.bytes|
    ensures TurnAt(data, pos, m, pending) ==
      Again(pos + 1 + |EncodeText(key)| + |EncodeText(value)|,
        m[Meaning(key) := Entry(Meaning(key), Meaning(value), pending)], 0)
  {
    hide ReadString, EncodeText, Has, TextOk, Meaning;
    var a, b := EncodeText(key), EncodeText(value);
    TaggedTwo(data, pos, STRING_VALUE, a, b);
    TextReadsBack(data, pos + 1, key);
    TextReadsBack(data, pos + 1 + |a|, value);
  }

  lemma AuxReadsBack(data: File, pos: nat, name: Text, setting: Text, m: map<Bytes, Entry>, pending: int)
    requires TextOk(name) && TextOk(setting) && Has(data, pos, [AUX] + EncodeText(name) + EncodeText(setting))
    ensures pos < |data.bytes|
    ensures TurnAt(data, pos, m, pending) == Again(pos + 1 + |EncodeText(name)| + |EncodeText(setting)|, m, pending)
  {
    hide ReadString, EncodeText, Has, TextOk, Meaning;
    var a, b := EncodeText(name), EncodeText(setting);
    TaggedTwo(data, pos, AUX, a, b);
    TextReadsBack(data, pos + 1, name);
    TextReadsBack(data, pos + 1 + |a|, setting);
  }

  lemma LengthsReadBack(data: File, pos: nat, r: Record, m: map<Bytes, Entry>, pending: int)
    requires RecordOk(r) && Has(data, pos, EncodeRecord(r)) && (r.SelectDb? || r.ResizeDb?)
    ensures pos < |data.bytes|
    ensures TurnAt(data, pos, m, pending) == Again(pos + |EncodeRecord(r)|, m, pending)
  {
    hide ReadLength, EncodeLength, Has, LengthOk, EncodeText;
    match r {
      case SelectDb(db, form) =>
        Tagged(data, pos, SELECT_DB, EncodeLength(db, form));
        LengthReadsBack(data, pos + 1, db, form);
      case ResizeDb(size, sizeForm, expires, expiresForm) =>
        var a := EncodeLength(size, sizeForm);
        TaggedTwo(data, pos, RESIZE_DB, a, EncodeLength(expires, expiresForm));
        LengthReadsBack(data, pos + 1, size, sizeForm);
        LengthReadsBack(data, pos + 1 + |a|, expires, expiresForm);
    }
  }

  lemma ExpiryReadsBack(data: File, pos: nat, r: Record, m: map<Bytes, Entry>, pending: int)
    requires RecordOk(r) && Has(data, pos, EncodeRecord(r)) && (r.ExpireSeconds? || r.ExpireMillis?)
    ensures pos < |data.bytes|
    ensures TurnAt(data, pos, m, pending) == Again(pos + |EncodeRecord(r)|, m, PendingAfter(r, pending))
  {
    hide Power256, ToLittleEndian, LittleEndian, Signed, Has, Slice, Fits, TwosComplement;
    match r {
      case ExpireSeconds(secs) =>
        var e := ToLittleEndian(secs, 4);
        Tagged(data, pos, EXPIRE_SECONDS, e);
        SliceHas(data, pos + 1, e);
        LittleEndianReadsBack(secs, 4);
      case ExpireMillis(ms) =>
        var e := ToLittleEndian(TwosComplement(ms, 8), 8);
        Tagged(data, pos, EXPIRE_MILLIS, e);
        SliceHas(data, pos + 1, e);
        SignedReadsBack(ms, 8);
    }
  }

  lemma RecordReadsBack(data: File, pos: nat, r: Record, m: map<Bytes, Entry>, pending: int)
    requires RecordOk(r) && Has(data, pos, EncodeRecord(r))
    ensures pos < |data.bytes|
    ensures TurnAt(data, pos, m, pending) ==
      Again(pos + |EncodeRecord(r)|, EntriesAfter(r, m, pending), PendingAfter(r, pending))
  {
    hide TurnAt, Has, EncodeText, EncodeLength, Meaning, TextOk, LengthOk;
    match r {
      case Aux(name, setting) => AuxReadsBack(data, pos, name, setting, m, pending);
      case Pair(key, value) => PairReadsBack(data, pos, key, value, m, pending);
      case SelectDb(_, _) => LengthsReadBack(data, pos, r, m, pending);
      case ResizeDb(_, _, _, _) => LengthsReadBack(data, pos, r, m, pending);
      case ExpireSeconds(_) => ExpiryReadsBack(data, pos, r, m, pending);
      case ExpireMillis(_) => ExpiryReadsBack(data, pos, r, m, pending);
    }
  }

  lemma PairForSnoc(rs: seq<Record>, r: Record, i: nat, key: Bytes)
    requires i < |rs|
    ensures PairFor(rs + [r], i, key) <==> PairFor(rs, i, key)
    ensures PairFor(rs + [r], |rs|, key) <==> r.Pair? && Meaning(r.key) == key
  {
  }

  /** A pair is the last for its key with one record more exactly if it was, and the new one is not for it. */
  lemma LastPairSnoc(rs: seq<Record>, r: Record, i: nat, key: Bytes)
    requires i < |rs|
    ensures LastPairFor(rs + [r], i, key) <==> LastPairFor(rs, i, key) && !(r.Pair? && Meaning(r.key) == key)
    ensures LastPairFor(rs, i, key) ==> rs[i].Pair?
  {
    hide Meaning;
    var all := rs + [r];
    forall j | 0 <= j < |rs| ensures PairFor(all, j, key) <==> PairFor(rs, j, key) {
      PairForSnoc(rs, r, j, key);
    }
    PairForSnoc(rs, r, i, key);
  }

  lemma LastPairOfNew(rs: seq<Record>, r: Record, key: Bytes)
    ensures LastPairFor(rs + [r], |rs|, key) <==> r.Pair? && Meaning(r.key) == key
  {
  }

  /** A further record keeps the last writes: its own pair, if it is one, and all others. */
  lemma LastWritesSnoc(rs: seq<Record>, r: Record, m: map<Bytes, Entry>)
    requires LastWrites(rs, m)
    ensures LastWrites(rs + [r], EntriesAfter(r, m, ExpiryAt(rs, |rs|)))
  {
    hide LastPairFor, PairFor, Meaning, ExpiryAt;
    var all, m' := rs + [r], EntriesAfter(r, m, ExpiryAt(rs, |rs|));
    ExpiryPrefix(rs, r, |rs|);
    forall key, i | 0 <= i < |all| && LastPairFor(all, i, key)
      ensures all[i].Pair? && key in m' && m'[key] == Entry(key, Meaning(all[i].value), ExpiryAt(all, i))
    {
      if i < |rs| {
        ExpiryPrefix(rs, r, i);
        LastPairSnoc(rs, r, i, key);
      } else {
        LastPairOfNew(rs, r, key);
      }
    }
    forall key | key in m' ensures exists i :: 0 <= i < |all| && LastPairFor(all, i, key) {
      LastPairOfNew(rs, r, key);
      if !(r.Pair? && Meaning(r.key) == key) {
        var i :| 0 <= i < |rs| && LastPairFor(rs, i, key);
        LastPairSnoc(rs, r, i, key);
      }
    }
  }

  lemma {:induction false} ExpiryPrefix(rs: seq<Record>, r: Record, i: nat)
    requires i <= |rs|
    ensures ExpiryAt(rs + [r], i) == ExpiryAt(rs, i)
  {
    if i > 0 {
      ExpiryPrefix(rs, r, i - 1);
    }
  }

  lemma ExpirySnoc(rs: seq<Record>, r: Record)
    ensures ExpiryAt(rs + [r], |rs| + 1) == PendingAfter(r, ExpiryAt(rs, |rs|))
  {
    ExpiryPrefix(rs, r, |rs|);
  }

  lemma EncodeRecordsSnoc(rs: seq<Record>, r: Record)
    requires RecordsOk(rs + [r])
    ensures RecordsOk(rs) && RecordOk(r) && EncodeRecords(rs + [r]) == EncodeRecords(rs) + EncodeRecord(r)
  {
    assert (rs + [r])[..|rs|] == rs;
    assert forall i :: 0 <= i < |rs| ==> rs[i] == (rs + [r])[i];
    assert (rs + [r])[|rs|] == r;
  }

  lemma NoRecords(m: map<Bytes, Entry>)
    requires m == map[]
    ensures LastWrites([], m) && EncodeRecords([]) == [] && ExpiryAt([], 0) == 0
  {
  }

  /** Reading past the records leaves their last writes, with the expiry still waiting for a key. */
  lemma {:induction false} RecordsReadBack(data: File, pos: nat, rs: seq<Record>) returns (m: map<Bytes, Entry>)
    requires RecordsOk(rs) && Has(data, pos, EncodeRecords(rs))
    ensures LastWrites(rs, m)
    ensures Decode(data, pos, map[], 0) == Decode(data, pos + |EncodeRecords(rs)|, m, ExpiryAt(rs, |rs|))
  {
    hide Decode, TurnAt, Has, EncodeRecord, EncodeRecords, LastWrites, ExpiryAt, PendingAfter, EntriesAfter,
      RecordOk, RecordsOk;
    if |rs| == 0 {
      assert rs == [];
      m := map[];
      NoRecords(m);
    } else {
      var before, r := rs[..|rs| - 1], rs[|rs| - 1];
      assert rs == before + [r];
      EncodeRecordsSnoc(before, r);
      ExpirySnoc(before, r);
      HasSplit(data, pos, EncodeRecords(before), EncodeRecord(r));
      m := RecordsReadBack(data, pos, before);
      var p, pending := pos + |EncodeRecords(before)|, ExpiryAt(before, |before|);
      RecordReadsBack(data, p, r, m, pending);
      DecodeTurn(data, p, m, pending);
      LastWritesSnoc(before, r, m);
      m := EntriesAfter(r, m, pending);
    }
  }

  lemma DecodeTurn(data: File, pos: nat, m: map<Bytes, Entry>, pending: int)
    requires pos < |data.bytes|
    requires TurnAt(data, pos, m, pending).Again?
    ensures Decode(data, pos, m, pending) ==
      var t := TurnAt(data, pos, m, pending); Decode(data, t.pos, t.entries, t.pending)
  {
  }

  lemma HasMiddle(data: File, a: Bytes, e: Bytes, b: Bytes)
    requires data.bytes == a + e + b
    ensures Has(data, |a|, e)
    ensures |a| + |e| + |b| == |data.bytes|
    ensures b != [] ==> data.bytes[|a| + |e|] == b[0]
  {
    assert data.bytes[|a|..|a| + |e|] == e;
  }

  /** A well-formed file, closed by the end mark and anything after it or by the end of the data, loads to
      the last writes of its records. */
  lemma FileReadsBack(data: File, header: Bytes, rs: seq<Record>, tail: Bytes)
    requires |header| == HEADER && RecordsOk(rs)
    requires data.bytes == header + EncodeRecords(rs) + tail
    requires tail == [] || tail[0] == EOF
    ensures var o := Decode(data, HEADER, map[], 0); o.Loaded? && LastWrites(rs, o.entries)
  {
    hide Has, EncodeRecords, LastWrites, ExpiryAt, RecordsOk;
    HasMiddle(data, header, EncodeRecords(rs), tail);
    var m := RecordsReadBack(data, HEADER, rs);
  }

  /** A value of any other type stops the load with an error that keeps what was read. */
  lemma OtherTypesStop(data: File, header: Bytes, rs: seq<Record>, kind: Byte, key: Text, tail: Bytes)
    requires |header| == HEADER && RecordsOk(rs) && TextOk(key)
    requires !IsOpcode(kind) && kind != STRING_VALUE
    requires data.bytes == header + EncodeRecords(rs) + [kind] + EncodeText(key) + tail
    ensures var o := Decode(data, HEADER, map[], 0);
      o.UnsupportedType? && o.valueType == kind && LastWrites(rs, o.entries)
  {
    hide Has, EncodeRecords, EncodeText, LastWrites, ExpiryAt, RecordsOk, TextOk, Meaning, ReadString;
    var all := EncodeRecords(rs);
    assert header + all + [kind] + EncodeText(key) + tail == header + all + ([kind] + EncodeText(key) + tail);
    HasMiddle(data, header, all, [kind] + EncodeText(key) + tail);
    var m := RecordsReadBack(data, HEADER, rs);
    assert header + all + [kind] + EncodeText(key) + tail == (header + all + [kind]) + EncodeText(key) + tail;
    HasMiddle(data, header + all + [kind], EncodeText(key), tail);
    TextReadsBack(data, HEADER + |all| + 1, key);
  }

  /** One file has one map. */
  lemma LastWritesUnique(rs: seq<Record>, m: map<Bytes, Entry>, m': map<Bytes, Entry>)
    requires LastWrites(rs, m) && LastWrites(rs, m')
    ensures m == m'
  {
    forall key | key in m ensures key in m' && m[key] == m'[key] {
      var i :| 0 <= i < |rs| && LastPairFor(rs, i, key);
    }
    forall key | key in m' ensures key in m {
      var i :| 0 <= i < |rs| && LastPairFor(rs, i, key);
    }
  }

  lemma SliceAcross(front: Bytes, back: Bytes, from: nat, to: nat)
    requires from <= |front| <= to <= |front| + |back|
    ensures (front + back)[from..to] == front[from..] + back[..to - |front|]
  {
  }

  /** A string cut short by the end of the file is read as whole, completed from the spare bytes of the
      buffer, if and only if the buffer is long enough. */
  lemma CutString(data: File, pos: nat, whole: Bytes, form: LengthForm, kept: nat)
    requires LengthOk(|whole|, form) && kept <= |whole|
    requires pos <= |data.bytes|
    requires data.bytes == data.bytes[..pos] + EncodeLength(|whole|, form) + whole[..kept]
    ensures var missing := |whole| - kept;
      ReadString(data, pos) == if missing <= |data.spare|
        then Got(whole[..kept] + data.spare[..missing], |data.bytes| + missing) else ReadPanic
  {
    hide LengthOk, Power256, ReadLength;
    var e := EncodeLength(|whole|, form);
    hide EncodeLength;
    assert data.bytes[pos..pos + |e|] == e;
    HasByte(data, pos, e, 0);
    LengthReadsBack(data, pos, |whole|, form);
    var start := pos + |e|;
    if |whole| - kept <= |data.spare| {
      SliceAcross(data.bytes, data.spare, start, start + |whole|);
      assert data.bytes[start..] == whole[..kept];
    }
  }
}
