/** What the snapshot decoder makes of a well-formed file cut anywhere. */
module RdbCuts {
  import opened Bytes
  import opened Decimal
  import opened Rdb
  import opened RdbRoundTrip

  /** A field cut short: completed from the first `used` spare bytes of the buffer, or not. */
  datatype Cut<T> = Completed(value: T, used: nat) | NotCompleted

  /** Only the long form is read as a slice; the others are read byte by byte. */
  function CutLength(n: nat, form: LengthForm, t: nat, spare: Bytes): (c: Cut<nat>)
    requires LengthOk(n, form) && t < |EncodeLength(n, form)|
    ensures c.Completed? ==> c.used <= |spare|
  {
    if form.ThirtyTwo? && t >= 1 && 5 - t <= |spare|
    then Completed(BigEndian(EncodeLength(n, form)[1..t] + spare[..5 - t]), 5 - t)
    else NotCompleted
  }

  function CutInt(e: Bytes, t: nat, spare: Bytes): (c: Cut<Bytes>)
    requires t < |e|
  {
    if t >= 1 && |e| - t <= |spare|
    then Completed(Itoa(Signed(LittleEndian(e[1..t] + spare[..|e| - t]), |e| - 1)), |e| - t)
    else NotCompleted
  }

  /** A string cut in its payload is completed; one cut in its length takes its length from the spare bytes too. */
  function CutPlain(bytes: Bytes, form: LengthForm, t: nat, spare: Bytes): (c: Cut<Bytes>)
    requires LengthOk(|bytes|, form) && t < |EncodeLength(|bytes|, form)| + |bytes|
  {
    var h := |EncodeLength(|bytes|, form)|;
    if t < h then
      match CutLength(|bytes|, form, t, spare)
      case NotCompleted => NotCompleted
      case Completed(length, used) =>
        if used + length <= |spare| then Completed(spare[used..used + length], used + length) else NotCompleted
    else
      var missing := h + |bytes| - t;
      if missing <= |spare| then Completed(bytes[..t - h] + spare[..missing], missing) else NotCompleted
  }

  function CutText(x: Text, t: nat, spare: Bytes): Cut<Bytes>
    requires TextOk(x) && t < |EncodeText(x)|
  {
    match x
    case Plain(bytes, form) => CutPlain(bytes, form, t, spare)
    case Int8(_) => NotCompleted
    case Int16(_) => CutInt(EncodeText(x), t, spare)
    case Int32(_) => CutInt(EncodeText(x), t, spare)
  }

  /** What a load ends with whose last record is cut after `t` bytes, with the entries read before it. A cut
      in the first of two fields always panics, since the second one starts behind the end. */
  function CutRecord(r: Record, t: nat, spare: Bytes, m: map<Bytes, Entry>, pending: int): Outcome
    requires RecordOk(r) && 0 < t < |EncodeRecord(r)|
  {
    match r
    case SelectDb(db, form) =>
      if CutLength(db, form, t - 1, spare).Completed? then Loaded(m) else Panicked
    case ResizeDb(size, sizeForm, expires, expiresForm) =>
      var a := |EncodeLength(size, sizeForm)|;
      if t - 1 >= a && CutLength(expires, expiresForm, t - 1 - a, spare).Completed? then Loaded(m) else Panicked
    case Aux(name, setting) =>
      var a := |EncodeText(name)|;
      if t - 1 >= a && CutText(setting, t - 1 - a, spare).Completed? then Loaded(m) else Panicked
    case ExpireSeconds(_) => if 5 - t <= |spare| then Loaded(m) else Panicked
    case ExpireMillis(_) => if 9 - t <= |spare| then Loaded(m) else Panicked
    case Pair(key, value) =>
      var a := |EncodeText(key)|;
      if t - 1 < a then Panicked
      else
        match CutText(value, t - 1 - a, spare)
        case NotCompleted => Panicked
        case Completed(v, _) => Loaded(m[Meaning(key) := Entry(Meaning(key), v, pending)])
  }

  // ---------------------------------------------------------------- what the reads return

  /** The file ends `t` bytes into `e`, which starts at `pos`. */
  predicate EndsIn(data: File, pos: nat, e: Bytes, t: nat)
  {
    t <= |e| && pos + t == |data.bytes| && data.bytes[pos..] == e[..t]
  }

  lemma EndsSplit(data: File, pos: nat, a: Bytes, b: Bytes, t: nat)
    requires EndsIn(data, pos, a + b, t)
    ensures if t < |a| then EndsIn(data, pos, a, t) else Has(data, pos, a) && EndsIn(data, pos + |a|, b, t - |a|)
  {
    if t < |a| {
      assert (a + b)[..t] == a[..t];
    } else {
      assert data.bytes[pos..pos + |a|] == data.bytes[pos..][..|a|] == (a + b)[..t][..|a|] == a;
      assert data.bytes[pos + |a|..] == data.bytes[pos..][|a|..] == (a + b)[..t][|a|..] == b[..t - |a|];
    }
  }

  /** The read of a field that is completed from spare bytes, or panics. */
  function AsRead<T>(data: File, c: Cut<T>): Read<T>
  {
    match c
    case Completed(v, used) => Got(v, |data.bytes| + used)
    case NotCompleted => ReadPanic
  }

  /** A slice over the end of the file. */
  lemma SliceOver(data: File, pos: nat, e: Bytes, t: nat, from: nat)
    requires EndsIn(data, pos, e, t) && from <= t
    ensures Slice(data, pos + from, pos + |e|) ==
      if |e| - t <= |data.spare| then Got(e[from..t] + data.spare[..|e| - t], |data.bytes| + |e| - t) else ReadPanic
  {
    if |e| - t <= |data.spare| {
      SliceAcross(data.bytes, data.spare, pos + from, pos + |e|);
      assert data.bytes[pos + from..] == data.bytes[pos..][from..] == e[..t][from..] == e[from..t];
    }
  }

  lemma FirstByte(data: File, pos: nat, e: Bytes, t: nat)
    requires EndsIn(data, pos, e, t)
    ensures t > 0 ==> pos < |data.bytes| && data.bytes[pos] == e[0]
    ensures t == 0 ==> pos == |data.bytes|
  {
    assert t > 0 ==> data.bytes[pos..][0] == e[..t][0];
  }

  lemma CutLengthRead(data: File, pos: nat, n: nat, form: LengthForm, t: nat)
    requires LengthOk(n, form) && t < |EncodeLength(n, form)| && EndsIn(data, pos, EncodeLength(n, form), t)
    ensures ReadLength(data, pos) == AsRead(data, CutLength(n, form, t, data.spare))
  {
    hide BigEndian, Power256, ToBigEndian, Slice;
    var e := EncodeLength(n, form);
    FirstByte(data, pos, e, t);
    if form.ThirtyTwo? && t > 0 {
      SliceOver(data, pos, e, t, 1);
    }
  }

  lemma CutIntRead(data: File, pos: nat, e: Bytes, t: nat)
    requires (|e| == 3 && e[0] == 193) || (|e| == 5 && e[0] == 194)
    requires t < |e| && EndsIn(data, pos, e, t)
    ensures ReadString(data, pos) == AsRead(data, CutInt(e, t, data.spare))
  {
    hide Itoa, Signed, LittleEndian, Slice, ReadLength;
    FirstByte(data, pos, e, t);
    if t > 0 {
      SliceOver(data, pos, e, t, 1);
    }
  }

  lemma CutPlainRead(data: File, pos: nat, bytes: Bytes, form: LengthForm, t: nat)
    requires LengthOk(|bytes|, form) && t < |EncodeLength(|bytes|, form)| + |bytes|
    requires EndsIn(data, pos, EncodeLength(|bytes|, form) + bytes, t)
    ensures ReadString(data, pos) == AsRead(data, CutPlain(bytes, form, t, data.spare))
  {
    hide LengthOk, ReadLength, EncodeLength, Has;
    var head := EncodeLength(|bytes|, form);
    FirstByte(data, pos, head + bytes, t);
    EndsSplit(data, pos, head, bytes, t);
    if t < |head| {
      CutLengthRead(data, pos, |bytes|, form, t);
      if CutLength(|bytes|, form, t, data.spare).Completed? {
        SpareSlice(data, CutLength(|bytes|, form, t, data.spare).used, CutLength(|bytes|, form, t, data.spare).value);
      }
    } else {
      LengthReadsBack(data, pos, |bytes|, form);
      SliceOver(data, pos + |head|, bytes, t - |head|, 0);
    }
  }

  lemma SpareSlice(data: File, used: nat, length: nat)
    requires used <= |data.spare|
    ensures Slice(data, |data.bytes| + used, |data.bytes| + used + length) ==
      if used + length <= |data.spare|
      then Got(data.spare[used..used + length], |data.bytes| + used + length) else ReadPanic
  {
    if used + length <= |data.spare| {
      assert data.Buffer()[|data.bytes| + used..|data.bytes| + used + length] == data.spare[used..used + length];
    }
  }

  /** A cut string or integer is read as completed from the spare bytes, or panics. */
  lemma CutTextRead(data: File, pos: nat, x: Text, t: nat)
    requires TextOk(x) && t < |EncodeText(x)| && EndsIn(data, pos, EncodeText(x), t)
    ensures ReadString(data, pos) == AsRead(data, CutText(x, t, data.spare))
  {
    hide ReadString, CutInt, CutPlain, ToLittleEndian, TwosComplement, Fits, Power256, LengthOk, EncodeLength,
      EndsIn;
    match x
    case Plain(bytes, form) => CutPlainRead(data, pos, bytes, form, t);
    case Int8(n) => CutInt8Read(data, pos, EncodeText(x), t);
    case Int16(n) => CutIntRead(data, pos, EncodeText(x), t);
    case Int32(n) => CutIntRead(data, pos, EncodeText(x), t);
  }

  lemma CutInt8Read(data: File, pos: nat, e: Bytes, t: nat)
    requires |e| == 2 && e[0] == 192 && t < 2 && EndsIn(data, pos, e, t)
    ensures ReadString(data, pos) == ReadPanic
  {
    hide ReadLength, ReadInteger;
    FirstByte(data, pos, e, t);
  }

  lemma BehindTheEnd(data: File, pos: nat)
    requires pos >= |data.bytes|
    ensures ReadString(data, pos) == ReadPanic && ReadLength(data, pos) == ReadPanic
    ensures forall m, pending :: Decode(data, pos, m, pending) == Loaded(m)
  {
  }

  // ---------------------------------------------------------------- a cut record

  lemma CutTag(data: File, pos: nat, tag: Byte, e: Bytes, t: nat)
    requires EndsIn(data, pos, [tag] + e, t) && t > 0
    ensures pos < |data.bytes| && data.bytes[pos] == tag && EndsIn(data, pos + 1, e, t - 1)
  {
    hide Has;
    FirstByte(data, pos, [tag] + e, t);
    EndsSplit(data, pos, [tag], e, t);
  }

  lemma CutTagTwo(data: File, pos: nat, tag: Byte, a: Bytes, b: Bytes, t: nat)
    requires EndsIn(data, pos, [tag] + a + b, t) && t > 0
    ensures pos < |data.bytes| && data.bytes[pos] == tag && EndsIn(data, pos + 1, a + b, t - 1)
  {
    assert [tag] + a + b == [tag] + (a + b);
    CutTag(data, pos, tag, a + b, t);
  }

  /** The outcome of the turn over a cut record. */
  ghost predicate EndsAs(data: File, pos: nat, m: map<Bytes, Entry>, pending: int, outcome: Outcome)
    requires pos < |data.bytes|
  {
    match TurnAt(data, pos, m, pending)
    case Stop(o) => o == outcome
    case Again(next, m', pending') => next >= |data.bytes| && outcome == Loaded(m')
  }

  /** Of two texts cut short, the second read panics at the latest when the first one is cut. */
  lemma CutTextsRead(data: File, pos: nat, x: Text, y: Text, t: nat)
    requires TextOk(x) && TextOk(y) && t < |EncodeText(x)| + |EncodeText(y)|
    requires EndsIn(data, pos, EncodeText(x) + EncodeText(y), t)
    ensures var first, a := ReadString(data, pos), |EncodeText(x)|;
      if t < a then first.ReadPanic? || ReadString(data, first.next).ReadPanic?
      else first == Got(Meaning(x), pos + a) && ReadString(data, pos + a) == AsRead(data, CutText(y, t - a, data.spare))
  {
    hide ReadString, EncodeText, Has, TextOk, Meaning, EndsIn, CutText;
    var a, b := EncodeText(x), EncodeText(y);
    EndsSplit(data, pos, a, b, t);
    if t < |a| {
      CutTextRead(data, pos, x, t);
      var c := CutText(x, t, data.spare);
      if c.Completed? {
        BehindTheEnd(data, |data.bytes| + c.used);
      }
    } else {
      TextReadsBack(data, pos, x);
      CutTextRead(data, pos + |a|, y, t - |a|);
    }
  }

  lemma CutPairEnds(data: File, pos: nat, key: Text, value: Text, t: nat, m: map<Bytes, Entry>, pending: int)
    requires RecordOk(Pair(key, value)) && 0 < t < |EncodeRecord(Pair(key, value))|
    requires EndsIn(data, pos, EncodeRecord(Pair(key, value)), t)
    ensures pos < |data.bytes|
    ensures EndsAs(data, pos, m, pending, CutRecord(Pair(key, value), t, data.spare, m, pending))
  {
    hide ReadString, EncodeText, Has, TextOk, Meaning, EndsIn, CutText, ReadLength, Slice, LittleEndian, Signed;
    var a, b := EncodeText(key), EncodeText(value);
    CutTagTwo(data, pos, STRING_VALUE, a, b, t);
    CutTextsRead(data, pos + 1, key, value, t - 1);
  }

  lemma CutAuxEnds(data: File, pos: nat, name: Text, setting: Text, t: nat, m: map<Bytes, Entry>, pending: int)
    requires RecordOk(Aux(name, setting)) && 0 < t < |EncodeRecord(Aux(name, setting))|
    requires EndsIn(data, pos, EncodeRecord(Aux(name, setting)), t)
    ensures pos < |data.bytes|
    ensures EndsAs(data, pos, m, pending, CutRecord(Aux(name, setting), t, data.spare, m, pending))
  {
    hide ReadString, EncodeText, Has, TextOk, Meaning, EndsIn, CutText, ReadLength, Slice, LittleEndian, Signed;
    var a, b := EncodeText(name), EncodeText(setting);
    CutTagTwo(data, pos, AUX, a, b, t);
    CutTextsRead(data, pos + 1, name, setting, t - 1);
  }

  lemma CutSelectEnds(data: File, pos: nat, db: nat, form: LengthForm, t: nat, m: map<Bytes, Entry>, pending: int)
    requires LengthOk(db, form) && 0 < t < |EncodeRecord(SelectDb(db, form))|
    requires EndsIn(data, pos, EncodeRecord(SelectDb(db, form)), t)
    ensures pos < |data.bytes|
    ensures EndsAs(data, pos, m, pending, CutRecord(SelectDb(db, form), t, data.spare, m, pending))
  {
    hide ReadString, EncodeLength, Has, LengthOk, EndsIn, CutLength, ReadLength, Slice, LittleEndian, Signed;
    CutTag(data, pos, SELECT_DB, EncodeLength(db, form), t);
    CutLengthRead(data, pos + 1, db, form, t - 1);
  }

  /** Of two lengths cut short, the second read panics at the latest when the first one is cut. */
  lemma CutLengthsRead(data: File, pos: nat, x: nat, xForm: LengthForm, y: nat, yForm: LengthForm, t: nat)
    requires LengthOk(x, xForm) && LengthOk(y, yForm) && t < |EncodeLength(x, xForm)| + |EncodeLength(y, yForm)|
    requires EndsIn(data, pos, EncodeLength(x, xForm) + EncodeLength(y, yForm), t)
    ensures var first, a := ReadLength(data, pos), |EncodeLength(x, xForm)|;
      if t < a then first.ReadPanic? || ReadLength(data, first.next).ReadPanic?
      else first == Got(x, pos + a) && ReadLength(data, pos + a) == AsRead(data, CutLength(y, yForm, t - a, data.spare))
  {
    hide ReadLength, EncodeLength, Has, LengthOk, EndsIn, CutLength;
    var a, b := EncodeLength(x, xForm), EncodeLength(y, yForm);
    EndsSplit(data, pos, a, b, t);
    if t < |a| {
      CutLengthRead(data, pos, x, xForm, t);
      var c := CutLength(x, xForm, t, data.spare);
      if c.Completed? {
        BehindTheEnd(data, |data.bytes| + c.used);
      }
    } else {
      LengthReadsBack(data, pos, x, xForm);
      CutLengthRead(data, pos + |a|, y, yForm, t - |a|);
    }
  }

  lemma CutResizeEnds(data: File, pos: nat, r: Record, t: nat, m: map<Bytes, Entry>, pending: int)
    requires RecordOk(r) && r.ResizeDb? && 0 < t < |EncodeRecord(r)| && EndsIn(data, pos, EncodeRecord(r), t)
    ensures pos < |data.bytes| && EndsAs(data, pos, m, pending, CutRecord(r, t, data.spare, m, pending))
  {
    hide ReadString, EncodeLength, Has, LengthOk, EndsIn, CutLength, ReadLength, Slice, LittleEndian, Signed;
    var a, b := EncodeLength(r.size, r.sizeForm), EncodeLength(r.expires, r.expiresForm);
    CutTagTwo(data, pos, RESIZE_DB, a, b, t);
    CutLengthsRead(data, pos + 1, r.size, r.sizeForm, r.expires, r.expiresForm, t - 1);
  }

  lemma CutExpiryEnds(data: File, pos: nat, r: Record, t: nat, m: map<Bytes, Entry>, pending: int)
    requires RecordOk(r) && (r.ExpireSeconds? || r.ExpireMillis?) && 0 < t < |EncodeRecord(r)|
    requires EndsIn(data, pos, EncodeRecord(r), t)
    ensures pos < |data.bytes| && EndsAs(data, pos, m, pending, CutRecord(r, t, data.spare, m, pending))
  {
    hide Power256, ToLittleEndian, LittleEndian, Signed, Slice, Fits, TwosComplement, EndsIn, ReadString, ReadLength;
    match r {
      case ExpireSeconds(secs) =>
        CutTag(data, pos, EXPIRE_SECONDS, ToLittleEndian(secs, 4), t);
        SliceOver(data, pos + 1, ToLittleEndian(secs, 4), t - 1, 0);
      case ExpireMillis(ms) =>
        var e := ToLittleEndian(TwosComplement(ms, 8), 8);
        CutTag(data, pos, EXPIRE_MILLIS, e, t);
        SliceOver(data, pos + 1, e, t - 1, 0);
    }
  }

  lemma CutRecordEnds(data: File, pos: nat, r: Record, t: nat, m: map<Bytes, Entry>, pending: int)
    requires RecordOk(r) && 0 < t < |EncodeRecord(r)| && EndsIn(data, pos, EncodeRecord(r), t)
    ensures Decode(data, pos, m, pending) == CutRecord(r, t, data.spare, m, pending)
  {
    hide TurnAt, CutRecord, EndsIn, EncodeText, EncodeLength, TextOk, LengthOk;
    match r {
      case Aux(name, setting) => CutAuxEnds(data, pos, name, setting, t, m, pending);
      case Pair(key, value) => CutPairEnds(data, pos, key, value, t, m, pending);
      case SelectDb(db, form) => CutSelectEnds(data, pos, db, form, t, m, pending);
      case ResizeDb(_, _, _, _) => CutResizeEnds(data, pos, r, t, m, pending);
      case ExpireSeconds(_) => CutExpiryEnds(data, pos, r, t, m, pending);
      case ExpireMillis(_) => CutExpiryEnds(data, pos, r, t, m, pending);
    }
  }

  // ---------------------------------------------------------------- a cut file

  /** The cut falls `t` bytes into record `i`; at a record boundary `t` is 0. */
  predicate CutAt(rs: seq<Record>, n: nat, i: nat, t: nat)
    requires RecordsOk(rs) && i <= |rs|
  {
    && n == |EncodeRecords(rs[..i])| + t
    && t < if i < |rs| then |EncodeRecord(rs[i])| else 1
  }

  lemma {:induction false} CutPlace(rs: seq<Record>, n: nat) returns (i: nat, t: nat)
    requires RecordsOk(rs) && n <= |EncodeRecords(rs)|
    ensures i <= |rs| && CutAt(rs, n, i, t)
    ensures EncodeRecords(rs)[..n] == EncodeRecords(rs[..i]) + if i < |rs| then EncodeRecord(rs[i])[..t] else []
  {
    hide EncodeRecord;
    if n == |EncodeRecords(rs)| {
      i, t := |rs|, 0;
      assert rs[..i] == rs;
    } else {
      var before, r := rs[..|rs| - 1], rs[|rs| - 1];
      var front := EncodeRecords(before);
      if n < |front| {
        i, t := CutPlace(before, n);
        assert before[..i] == rs[..i] && EncodeRecords(rs)[..n] == front[..n];
      } else {
        i, t := |rs| - 1, n - |front|;
        assert EncodeRecords(rs)[..n] == front + EncodeRecord(r)[..t];
      }
    }
  }

  /** A file cut anywhere, whatever the buffer holds behind it: the records before the cut are loaded. At a
      record boundary that is all, and no error tells of the rest; within a record the load ends as
      `CutRecord` says. A file cut in its header loads as empty. */
  lemma CutFile(data: File, header: Bytes, rs: seq<Record>, n: nat) returns (i: nat, t: nat, m: map<Bytes, Entry>)
    requires |header| == HEADER && RecordsOk(rs) && n <= |EncodeRecords(rs)|
    requires data.bytes == header + EncodeRecords(rs)[..n]
    ensures i <= |rs| && CutAt(rs, n, i, t) && LastWrites(rs[..i], m)
    ensures Decode(data, HEADER, map[], 0) ==
      if t == 0 then Loaded(m) else CutRecord(rs[i], t, data.spare, m, ExpiryAt(rs[..i], i))
  {
    hide EncodeRecords, EncodeRecord, LastWrites, ExpiryAt, Decode, CutRecord, RecordOk, Has;
    i, t := CutPlace(rs, n);
    var before := rs[..i];
    var front := EncodeRecords(before);
    var rest: Bytes := if i < |rs| then EncodeRecord(rs[i])[..t] else [];
    assert data.bytes == header + front + rest;
    HasMiddle(data, header, front, rest);
    m := RecordsReadBack(data, HEADER, before);
    if t == 0 {
      BehindTheEnd(data, HEADER + |front|);
    } else {
      assert data.bytes[HEADER + |front|..] == rest;
      CutRecordEnds(data, HEADER + |front|, rs[i], t, m, ExpiryAt(before, i));
    }
  }

  lemma CutHeader(data: File)
    requires |data.bytes| <= HEADER
    ensures Decode(data, HEADER, map[], 0) == Loaded(map[])
  {
  }
}
