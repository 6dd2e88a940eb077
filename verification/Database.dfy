/** The logged commands on strings, lists and streams, when no key expires and no client is blocked. */
module Database {
  import opened Bytes
  import opened Decimal
  import opened StreamIds
  import opened Streams
  import opened ListHandoff

  const TWO_TO_64: nat := 0x1_0000_0000_0000_0000

  datatype Cell = Cell(value: Bytes, version: nat)

  datatype Db = Db(data: map<Bytes, Cell>, lists: map<Bytes, seq<Bytes>>, streams: map<Bytes, seq<Entry>>)

  const EMPTY := Db(map[], map[], map[])

  /** The store after a command, or the panic that ends the server. */
  datatype Result = Ran(db: Db) | Panicked

  // Command names in lower case

  const SET: Bytes := [115, 101, 116]
  const INCR: Bytes := [105, 110, 99, 114]
  const RPUSH: Bytes := [114, 112, 117, 115, 104]
  const LPUSH: Bytes := [108, 112, 117, 115, 104]
  const LPOP: Bytes := [108, 112, 111, 112]
  const XADD: Bytes := [120, 97, 100, 100]
  const BLPOP: Bytes := [98, 108, 112, 111, 112]
  const EX: Bytes := [101, 120]
  const PX: Bytes := [112, 120]

  lemma CommandNames()
    ensures SET == Ascii("set") && INCR == Ascii("incr") && RPUSH == Ascii("rpush") && LPUSH == Ascii("lpush")
    ensures LPOP == Ascii("lpop") && XADD == Ascii("xadd") && BLPOP == Ascii("blpop")
    ensures EX == Ascii("ex") && PX == Ascii("px")
    ensures forall name :: IsLogged(name) <==>
      name in {Ascii("set"), Ascii("incr"), Ascii("rpush"), Ascii("lpush"), Ascii("lpop"), Ascii("xadd")}
  {
  }

  function LowerByte(b: Byte): Byte
  {
    if 65 <= b <= 90 then b + 32 else b
  }

  function UpperByte(b: Byte): Byte
  {
    if 97 <= b <= 122 then b - 32 else b
  }

  function ToLower(s: Bytes): (r: Bytes)
    ensures |r| == |s|
    ensures forall i :: 0 <= i < |s| ==> r[i] == LowerByte(s[i])
  {
    seq(|s|, i requires 0 <= i < |s| => LowerByte(s[i]))
  }

  function ToUpper(s: Bytes): (r: Bytes)
    ensures |r| == |s|
    ensures forall i :: 0 <= i < |s| ==> r[i] == UpperByte(s[i])
  {
    seq(|s|, i requires 0 <= i < |s| => UpperByte(s[i]))
  }

  /** Writing or counting up bumps the version, an unsigned 64-bit number. */
  function Bump(version: nat): nat
  {
    (version + 1) % TWO_TO_64
  }

  function SetString(data: map<Bytes, Cell>, key: Bytes, value: Bytes): map<Bytes, Cell>
  {
    data[key := Cell(value, if key in data then Bump(data[key].version) else 1)]
  }

  datatype IncrResult = Counted(data: map<Bytes, Cell>) | NotCounted

  function IncrString(data: map<Bytes, Cell>, key: Bytes): IncrResult
  {
    if key !in data then Counted(data[key := Cell([49], 1)])
    else match Atoi(data[key].value)
      case NotANumber => NotCounted
      case Num(n) => Counted(data[key := Cell(Itoa(Increment(n)), Bump(data[key].version))])
  }

  /** The key-value pairs of XADD; a later pair overrides an earlier one, an odd rest is dropped. */
  function Fields(args: seq<Bytes>): map<Bytes, Bytes>
  {
    if |args| < 2 then map[] else map[args[0] := args[1]] + Fields(args[2..])
  }

  /** The `i`-th pair has the name. */
  predicate NamedAt(args: seq<Bytes>, i: int, name: Bytes)
  {
    0 <= i && 2 * i + 1 < |args| && args[2 * i] == name
  }

  /** ... and is the last one that has. */
  ghost predicate LastNamedAt(args: seq<Bytes>, i: int, name: Bytes)
  {
    NamedAt(args, i, name) && forall j :: NamedAt(args, j, name) ==> j <= i
  }

  /** Every name has the value that follows its last mention. */
  lemma {:induction false} FieldsAre(args: seq<Bytes>, name: Bytes)
    ensures name in Fields(args) <==> exists i :: NamedAt(args, i, name)
    ensures forall i :: LastNamedAt(args, i, name) ==> name in Fields(args) && Fields(args)[name] == args[2 * i + 1]
  {
    if |args| >= 2 {
      var rest := args[2..];
      FieldsAre(rest, name);
      forall i: int ensures i >= 1 ==> (NamedAt(args, i, name) <==> NamedAt(rest, i - 1, name)) {
      }
      if i :| NamedAt(rest, i, name) {
        assert NamedAt(args, i + 1, name);
      }
      if i :| NamedAt(args, i, name) {
        assert i > 0 ==> NamedAt(rest, i - 1, name);
      }
      assert args[0] == name ==> NamedAt(args, 0, name);
      forall i | LastNamedAt(args, i, name)
        ensures name in Fields(args) && Fields(args)[name] == args[2 * i + 1]
      {
        forall j | NamedAt(rest, j, name) ensures j <= i - 1 {
          assert NamedAt(args, j + 1, name);
        }
        if i >= 1 {
          assert LastNamedAt(rest, i - 1, name);
        }
      }
    }
  }

  function ListOf(db: Db, key: Bytes): seq<Bytes>
  {
    if key in db.lists then db.lists[key] else []
  }

  function StreamOf(db: Db, key: Bytes): seq<Entry>
  {
    if key in db.streams then db.streams[key] else []
  }

  /** A SET that gives its key a time to live. */
  predicate SetsExpiry(args: seq<Bytes>)
  {
    |args| > 3 && (ToLower(args[2]) == EX || ToLower(args[2]) == PX) && Atoi(args[3]).Num?
  }

  function RunSet(db: Db, args: seq<Bytes>): Result
  {
    if |args| > 3 && (ToLower(args[2]) == EX || ToLower(args[2]) == PX) && Atoi(args[3]).NotANumber? then Ran(db)
    else if |args| < 2 then Panicked
    else Ran(db.(data := SetString(db.data, args[0], args[1])))
  }

  function RunIncr(db: Db, args: seq<Bytes>): Result
  {
    if |args| == 0 then Ran(db)
    else match IncrString(db.data, args[0])
      case NotCounted => Ran(db)
      case Counted(data) => Ran(db.(data := data))
  }

  function RunPush(db: Db, left: bool, args: seq<Bytes>): Result
  {
    if |args| == 0 then Panicked
    else
      var vs := if left then Reverse(args[1..]) + ListOf(db, args[0]) else ListOf(db, args[0]) + args[1..];
      Ran(db.(lists := db.lists[args[0] := vs]))
  }

  /** An unreadable count is used as it comes back: 0, or the nearest 64-bit number when it is out of
      range. A negative one panics if the list exists. */
  function RunLpop(db: Db, args: seq<Bytes>): Result
  {
    if |args| == 0 then Panicked
    else if args[0] !in db.lists then Ran(db)
    else
      var list := db.lists[args[0]];
      var count := if |args| == 1 then 1 else AtoiValue(args[1]);
      if count < 0 then Panicked
      else Ran(db.(lists := db.lists[args[0] := list[if count < |list| then count else |list|..]]))
  }

  function RunXadd(db: Db, args: seq<Bytes>, now: int): Result
  {
    if |args| < 2 then Panicked
    else
      var es := StreamOf(db, args[0]);
      match ResolveStreamID(args[1], LastID(es), now)
      case Rejected(_) => Ran(db)
      case Accepted(id) => Ran(db.(streams := db.streams[args[0] := es + [Entry(id, Fields(args[2..]))]]))
  }

  /** The commands that are logged, by lower-case name; BLPOP is logged too but left aside here. */
  predicate IsLogged(name: Bytes)
  {
    name == SET || name == INCR || name == RPUSH || name == LPUSH || name == LPOP || name == XADD
  }

  function Run(db: Db, name: Bytes, args: seq<Bytes>, now: int): Result
    requires IsLogged(name)
  {
    if name == SET then RunSet(db, args)
    else if name == INCR then RunIncr(db, args)
    else if name == RPUSH then RunPush(db, false, args)
    else if name == LPUSH then RunPush(db, true, args)
    else if name == LPOP then RunLpop(db, args)
    else RunXadd(db, args, now)
  }

  /** When a command ends the server: arguments missing, or a negative count popped from a list that is there. */
  lemma PanicsIff(db: Db, name: Bytes, args: seq<Bytes>, now: int)
    requires IsLogged(name)
    ensures Run(db, name, args, now).Panicked? <==>
      || (name == Ascii("set") && |args| < 2)
      || ((name == Ascii("rpush") || name == Ascii("lpush") || name == Ascii("lpop")) && args == [])
      || (name == Ascii("xadd") && |args| < 2)
      || (name == Ascii("lpop") && |args| >= 2 && args[0] in db.lists && AtoiValue(args[1]) < 0)
  {
    hide Atoi, AtoiValue, Itoa, Reverse, ResolveStreamID, Fields;
    CommandNames();
  }

  /** SET stores the value and touches nothing else, unless its time to live is unreadable. */
  lemma SetEffects(db: Db, k: Bytes, v: Bytes, ttl: Bytes, now: int)
    ensures var r := Run(db, SET, [k, v], now);
      && r.Ran? && r.db.lists == db.lists && r.db.streams == db.streams && k in r.db.data
      && r.db.data - {k} == db.data - {k} && r.db.data[k].value == v
    ensures Atoi(ttl).NotANumber? ==>
      && Run(db, SET, [k, v, Ascii("EX"), ttl], now) == Ran(db)
      && Ran(db) == Run(db, SET, [k, v, Ascii("px"), ttl], now)
  {
    TimeUnits(ttl);
    hide Atoi, Ascii;
  }

  /** INCR stores the successor, 1 for a missing key, and touches nothing else. */
  lemma IncrEffects(db: Db, k: Bytes, n: int, now: int)
    requires Int64(n) && n < MAX_INT64
    ensures var r := Run(db, INCR, [k], now);
      && (k !in db.data ==> r.Ran? && k in r.db.data && r.db.data[k].value == Ascii("1"))
      && (k in db.data && db.data[k].value == Itoa(n) ==> r.Ran? && k in r.db.data && r.db.data[k].value == Itoa(n + 1))
      && r.Ran? && r.db.lists == db.lists && r.db.streams == db.streams && r.db.data - {k} == db.data - {k}
  {
    AtoiItoa(n);
    assert Ascii("1") == [49];
    hide Itoa, Atoi, Ascii;
  }

  lemma TimeUnits(ttl: Bytes)
    ensures ToLower(Ascii("EX")) == EX && ToLower(Ascii("px")) == PX
  {
  }

  /** RPUSH puts its values behind the list in their order, LPUSH in front of it one by one. */
  lemma PushEffects(db: Db, key: Bytes, vs: seq<Bytes>, now: int)
    ensures Run(db, RPUSH, [key] + vs, now) == Ran(db.(lists := db.lists[key := ListOf(db, key) + vs]))
    ensures var r := Run(db, LPUSH, [key] + vs, now);
      && r.Ran? && r.db == db.(lists := db.lists[key := ListOf(r.db, key)])
      && |ListOf(r.db, key)| == |vs| + |ListOf(db, key)| && ListOf(r.db, key)[|vs|..] == ListOf(db, key)
      && forall i :: 0 <= i < |vs| ==> ListOf(r.db, key)[i] == vs[|vs| - 1 - i]
  {
    hide Reverse;
    assert ([key] + vs)[1..] == vs;
  }

  /** LPOP takes as many elements as it is asked for from the front, or one. */
  lemma PopEffects(db: Db, key: Bytes, n: nat, now: int)
    requires n <= MAX_INT64 && key in db.lists
    ensures var es := db.lists[key];
      && Run(db, LPOP, [key, Itoa(n)], now) ==
           Ran(db.(lists := db.lists[key := if n <= |es| then es[n..] else []]))
      && Run(db, LPOP, [key], now) == Ran(db.(lists := db.lists[key := if es == [] then [] else es[1..]]))
  {
    AtoiItoa(n);
    hide Itoa, Atoi;
    assert [key, Itoa(n)][1] == Itoa(n);
    assert AtoiValue(Itoa(n)) == n;
  }

  /** XADD appends the entry under the ID it is given, or changes nothing. */
  lemma StreamEffects(db: Db, key: Bytes, id: Bytes, fields: seq<Bytes>, now: int)
    ensures var es := StreamOf(db, key);
      Run(db, XADD, [key, id] + fields, now) ==
        match ResolveStreamID(id, LastID(es), now)
        case Accepted(given) => Ran(db.(streams := db.streams[key := es + [Entry(given, Fields(fields))]]))
        case Rejected(_) => Ran(db)
  {
    CommandNames();
    hide ResolveStreamID, Fields, Ascii;
    assert ([key, id] + fields)[2..] == fields;
  }

  lemma LettersAre()
    ensures var upper, lower := Ascii("ABCDEFGHIJKLMNOPQRSTUVWXYZ"), Ascii("abcdefghijklmnopqrstuvwxyz");
      && |upper| == |lower| == 26
      && forall i :: 0 <= i < 26 ==> upper[i] as int == 65 + i && lower[i] as int == 97 + i
  {
  }

  /** The letters of the two cases, and nothing else, are exchanged. */
  lemma CasesAre(b: Byte)
    ensures ToLower(Ascii("ABCDEFGHIJKLMNOPQRSTUVWXYZ")) == Ascii("abcdefghijklmnopqrstuvwxyz")
    ensures ToUpper(Ascii("abcdefghijklmnopqrstuvwxyz")) == Ascii("ABCDEFGHIJKLMNOPQRSTUVWXYZ")
    ensures LowerByte(b) != b <==> b in Ascii("ABCDEFGHIJKLMNOPQRSTUVWXYZ")
    ensures UpperByte(b) != b <==> b in Ascii("abcdefghijklmnopqrstuvwxyz")
  {
    hide Ascii;
    var upper, lower := Ascii("ABCDEFGHIJKLMNOPQRSTUVWXYZ"), Ascii("abcdefghijklmnopqrstuvwxyz");
    LettersAre();
    assert 65 <= b <= 90 ==> upper[b as int - 65] == b;
    assert 97 <= b <= 122 ==> lower[b as int - 97] == b;
  }

  /** Neither a clock nor another client decides what the command does. */
  predicate Deterministic(name: Bytes, args: seq<Bytes>)
  {
    && name != BLPOP
    && (name == SET ==> !SetsExpiry(args))
    && (name == XADD ==> |args| >= 2 ==> args[1] != ANY)
  }

  lemma ClockDoesNotMatter(db: Db, name: Bytes, args: seq<Bytes>, now: int, later: int)
    requires IsLogged(name) && Deterministic(name, args)
    ensures Run(db, name, args, now) == Run(db, name, args, later)
  {
  }

  /** A logged name is written in capitals and read back in small letters. */
  lemma NameSurvives(name: Bytes)
    requires IsLogged(name)
    ensures ToLower(ToUpper(name)) == name
  {
    assert forall i :: 0 <= i < |name| ==> 97 <= name[i] <= 122;
  }
}
