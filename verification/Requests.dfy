/** A read or write request as the daemon takes it apart: the file name, the mode,
    and the option pairs, which it enters into its table of known options. */
module Requests {
  import opened Wrappers
  import opened Octets

  /** The options the daemon knows, in the order of its table. */
  datatype Opt = BLKSIZE | BLKSIZE2 | COOKIE | ROLLOVER | TIMEOUT | TSIZE | UTIMEOUT | WINDOWSIZE

  const Order: seq<Opt> := [BLKSIZE, BLKSIZE2, COOKIE, ROLLOVER, TIMEOUT, TSIZE, UTIMEOUT, WINDOWSIZE]

  /** The canonical names. */
  function Name(o: Opt): (n: bytes)
    ensures Plain(n) && 0 < |n| <= 10
  {
    match o
    case BLKSIZE => [98, 108, 107, 115, 105, 122, 101]
    case BLKSIZE2 => [98, 108, 107, 115, 105, 122, 101, 50]
    case COOKIE => [99, 111, 111, 107, 105, 101]
    case ROLLOVER => [114, 111, 108, 108, 111, 118, 101, 114]
    case TIMEOUT => [116, 105, 109, 101, 111, 117, 116]
    case TSIZE => [116, 115, 105, 122, 101]
    case UTIMEOUT => [117, 116, 105, 109, 101, 111, 117, 116]
    case WINDOWSIZE => [119, 105, 110, 100, 111, 119, 115, 105, 122, 101]
  }

  /** One row of the table.  clientAt is where the client's spelling of the name
      stands in the request; text is the value with its NUL. */
  datatype Entry = Entry(req: bool, ack: bool, clientAt: nat, value: nat, text: bytes)

  const Unasked := Entry(false, false, 0, 0, [])

  type Table = t: map<Opt, Entry> | forall o: Opt :: o in t
    witness map o: Opt | true :: Unasked

  const Blank: Table := map o: Opt | true :: Unasked

  /** The first option of the table with that name, in any case; |Order| for none. */
  function Lookup(name: bytes, k: nat): (i: nat)
    requires k <= |Order|
    ensures k <= i <= |Order|
    ensures i < |Order| ==> SameName(Name(Order[i]), name)
    ensures forall j :: k <= j < i ==> !SameName(Name(Order[j]), name)
    decreases |Order| - k
  {
    if k == |Order| || SameName(Name(Order[k]), name) then k else Lookup(name, k + 1)
  }

  /** The string at offset i of the request. */
  function StringAt(b: bytes, i: nat): (s: bytes)
    requires i <= |b|
    ensures Plain(s)
  {
    b[i..NulAt(b, i)]
  }

  /** The row of option o after a pair with that name.  All but the cookie take a
      decimal number without a sign; another value leaves the row as it was, but for
      the spelling of its name. */
  function Entered(e: Entry, o: Opt, b: bytes, opt: nat, val: nat): Entry
    requires val <= |b| && NulAt(b, val) < |b| && StringAt(b, val) != []
  {
    var text, end := StringAt(b, val), NulAt(b, val);
    if o.COOKIE? then Entry(true, e.ack, opt, e.value, b[val..end + 1])
    else if IsDigit(text[0]) && ToUMax(text).Some? then Entry(true, e.ack, opt, ToUMax(text).value, b[val..end + 1])
    else e.(clientAt := opt)
  }

  /** parse_option: enters the pair if its name is known. */
  function WithOption(t: Table, b: bytes, opt: nat, val: nat): Table
    requires opt <= |b| && val <= |b| && NulAt(b, val) < |b|
  {
    var name := StringAt(b, opt);
    if name == [] || StringAt(b, val) == [] || Lookup(name, 0) == |Order| then t
    else
      var o := Order[Lookup(name, 0)];
      t[o := Entered(t[o], o, b, opt, val)]
  }

  /** The option pairs from offset cp on: up to an empty string or the end of the
      packet.  None if a string is not terminated. */
  function OptionsFrom(b: bytes, cp: nat, t: Table): Option<Table>
    requires cp <= |b|
    decreases |b| - cp
  {
    if cp == |b| || b[cp] == ZERO then Some(t)
    else if NulAt(b, cp) == |b| then None
    else ValueFrom(b, cp, NulAt(b, cp) + 1, t)
  }

  /** The same, after the name of an option. */
  function ValueFrom(b: bytes, opt: nat, val: nat, t: Table): Option<Table>
    requires opt < val <= |b|
    decreases |b| - val
  {
    if val == |b| || b[val] == ZERO then Some(t)
    else if NulAt(b, val) == |b| then None
    else OptionsFrom(b, NulAt(b, val) + 1, WithOption(t, b, opt, val))
  }

  datatype Mode = NETASCII | OCTET

  function ModeName(m: Mode): (n: bytes)
    ensures Plain(n) && n != []
  {
    match m
    case NETASCII => [110, 101, 116, 97, 115, 99, 105, 105]
    case OCTET => [111, 99, 116, 101, 116]
  }

  function FindMode(s: bytes): Option<Mode> {
    if SameName(ModeName(NETASCII), s) then Some(NETASCII)
    else if SameName(ModeName(OCTET), s) then Some(OCTET)
    else None
  }

  datatype Parse =
    | Accepted(mode: Mode, table: Table)
    | NotTerminated
    | UnknownMode
    | MissingMode

  function Verdict(mode: Mode, t: Option<Table>): Parse {
    if t.None? then NotTerminated else Accepted(mode, t.value)
  }

  function ModeFrom(b: bytes, cp: nat): Parse
    requires cp <= |b|
  {
    if cp == |b| || b[cp] == ZERO then MissingMode
    else if NulAt(b, cp) == |b| then NotTerminated
    else
      var m := FindMode(StringAt(b, cp));
      if m.None? then UnknownMode else Verdict(m.value, OptionsFrom(b, NulAt(b, cp) + 1, Blank))
  }

  /** The request b, without its opcode. */
  function Parsed(b: bytes): Parse {
    if b == [] || b[0] == ZERO then MissingMode
    else if NulAt(b, 0) == |b| then NotTerminated
    else ModeFrom(b, NulAt(b, 0) + 1)
  }

  /** The reading, one string at a time. */
  lemma NameRead(b: bytes)
    requires b != [] && b[0] != ZERO
    ensures Parsed(b) == if NulAt(b, 0) == |b| then NotTerminated else ModeFrom(b, NulAt(b, 0) + 1)
  {
    hide ModeFrom, NulAt;
  }

  lemma ModeRead(b: bytes, cp: nat)
    requires cp < |b| && b[cp] != ZERO
    ensures ModeFrom(b, cp) ==
      if NulAt(b, cp) == |b| then NotTerminated
      else if FindMode(StringAt(b, cp)).None? then UnknownMode
      else Verdict(FindMode(StringAt(b, cp)).value, OptionsFrom(b, NulAt(b, cp) + 1, Blank))
  {
    hide OptionsFrom, NulAt, FindMode, StringAt;
  }

  lemma OptionRead(b: bytes, cp: nat, t: Table)
    requires cp < |b| && b[cp] != ZERO
    ensures OptionsFrom(b, cp, t) == if NulAt(b, cp) == |b| then None else ValueFrom(b, cp, NulAt(b, cp) + 1, t)
  {
    hide ValueFrom, NulAt;
  }

  lemma ValueRead(b: bytes, opt: nat, val: nat, t: Table)
    requires opt < val < |b| && b[val] != ZERO
    ensures ValueFrom(b, opt, val, t) ==
      if NulAt(b, val) == |b| then None else OptionsFrom(b, NulAt(b, val) + 1, WithOption(t, b, opt, val))
  {
    hide OptionsFrom, NulAt, WithOption;
  }

  lemma NothingRead(b: bytes, opt: nat, cp: nat, t: Table)
    requires cp <= |b| && (cp == |b| || b[cp] == ZERO)
    ensures cp == 0 ==> Parsed(b) == MissingMode
    ensures ModeFrom(b, cp) == MissingMode && OptionsFrom(b, cp, t) == Some(t)
    ensures opt < cp ==> ValueFrom(b, opt, cp, t) == Some(t)
  {
    hide NulAt, FindMode, WithOption;
  }

  // ----------------------------------------------------------- what the table holds

  /** The client's spelling of option o stands at offset i, with its NUL right where
      the canonical name has it. */
  predicate Spelled(b: bytes, o: Opt, i: nat) {
    && i + |Name(o)| < |b| && b[i + |Name(o)|] == ZERO
    && SameName(Name(o), b[i..i + |Name(o)|])
  }

  /** A row that was asked for can be answered: its name can be copied out of the
      request, its text is one string, a number is the number of that text, and a
      cookie stands right behind its name. */
  predicate EntryOk(b: bytes, o: Opt, e: Entry) {
    e.req ==>
      && Spelled(b, o, e.clientAt)
      && |e.text| > 1 && Plain(e.text[..|e.text| - 1]) && e.text[|e.text| - 1] == ZERO
      && (o != COOKIE ==> ToUMax(e.text[..|e.text| - 1]) == Some(e.value))
      && (o == COOKIE ==>
            var val := e.clientAt + |Name(o)| + 1;
            val + |e.text| <= |b| && b[val..val + |e.text|] == e.text)
  }

  ghost predicate TableOk(b: bytes, t: Table) {
    forall o: Opt :: EntryOk(b, o, t[o])
  }

  lemma LookupSpelled(b: bytes, opt: nat)
    requires opt <= |b| && NulAt(b, opt) < |b| && Lookup(StringAt(b, opt), 0) < |Order|
    ensures Spelled(b, Order[Lookup(StringAt(b, opt), 0)], opt)
    ensures NulAt(b, opt) == opt + |Name(Order[Lookup(StringAt(b, opt), 0)])|
  {
    var o := Order[Lookup(StringAt(b, opt), 0)];
    assert |Name(o)| == NulAt(b, opt) - opt;
    assert b[opt..opt + |Name(o)|] == StringAt(b, opt);
  }

  lemma EnteredOk(e: Entry, o: Opt, b: bytes, opt: nat, val: nat)
    requires val <= |b| && NulAt(b, val) < |b| && StringAt(b, val) != []
    requires EntryOk(b, o, e) && Spelled(b, o, opt) && val == opt + |Name(o)| + 1
    ensures EntryOk(b, o, Entered(e, o, b, opt, val))
  {
    hide Spelled, ToUMax, Name, NulAt;
    var end := NulAt(b, val);
    var full := b[val..end + 1];
    assert full[..|full| - 1] == b[val..end] == StringAt(b, val);
    assert full[|full| - 1] == b[end];
  }

  lemma WithOptionOk(t: Table, b: bytes, opt: nat, val: nat)
    requires opt <= |b| && NulAt(b, opt) < |b| && val == NulAt(b, opt) + 1 && NulAt(b, val) < |b| && TableOk(b, t)
    ensures TableOk(b, WithOption(t, b, opt, val))
  {
    hide Spelled, Entered, Lookup, EntryOk;
    var name := StringAt(b, opt);
    if name != [] && StringAt(b, val) != [] && Lookup(name, 0) < |Order| {
      var o := Order[Lookup(name, 0)];
      LookupSpelled(b, opt);
      assert EntryOk(b, o, t[o]);
      EnteredOk(t[o], o, b, opt, val);
    }
  }

  /** Whatever a client sends, every option that counts as asked for can be answered. */
  lemma {:induction false} OptionsOk(b: bytes, cp: nat, t: Table)
    requires cp <= |b| && TableOk(b, t) && OptionsFrom(b, cp, t).Some?
    ensures TableOk(b, OptionsFrom(b, cp, t).value)
    decreases |b| - cp
  {
    hide WithOption, TableOk;
    if cp < |b| && b[cp] != ZERO {
      var val := NulAt(b, cp) + 1;
      if val < |b| && b[val] != ZERO {
        WithOptionOk(t, b, cp, val);
        OptionsOk(b, NulAt(b, val) + 1, WithOption(t, b, cp, val));
      }
    }
  }

  lemma ParsedOk(b: bytes)
    requires Parsed(b).Accepted?
    ensures TableOk(b, Parsed(b).table)
  {
    hide OptionsFrom;
    var m := NulAt(b, 0) + 1;
    assert TableOk(b, Blank);
    OptionsOk(b, NulAt(b, m) + 1, Blank);
  }

  // --------------------------------------------------------- requests that are built

  /** An option pair as it goes on the wire. */
  function Pair(name: bytes, value: bytes): bytes {
    name + [ZERO] + value + [ZERO]
  }

  /** Where the two strings of a pair stand. */
  lemma PairStands(b: bytes, cp: nat, name: bytes, v: bytes, rest: bytes)
    requires cp <= |b| && Plain(name) && Plain(v) && b[cp..] == Pair(name, v) + rest
    ensures var val := cp + |name| + 1;
      && NulAt(b, cp) == val - 1 && val + |v| < |b| && NulAt(b, val) == val + |v|
      && StringAt(b, cp) == name && StringAt(b, val) == v
      && b[val..val + |v| + 1] == v + [ZERO] && b[val + |v| + 1..] == rest
  {
    hide NulAt;
    assert b[cp..] == name + [ZERO] + (v + [ZERO] + rest);
    NulAfter(b, cp, name, v + [ZERO] + rest);
    var val := cp + |name| + 1;
    NulAfter(b, val, v, rest);
    assert b[val..val + |v| + 1] == b[val..val + |v|] + [b[val + |v|]];
  }

  /** A pair is entered, and parsing goes on behind it. */
  lemma PairTaken(b: bytes, cp: nat, t: Table, name: bytes, v: bytes, rest: bytes)
    requires cp <= |b| && Plain(name) && Plain(v) && name != [] && v != [] && b[cp..] == Pair(name, v) + rest
    ensures var val := cp + |name| + 1;
      && val <= val + |v| == NulAt(b, val) < |b|
      && OptionsFrom(b, cp, t) == OptionsFrom(b, val + |v| + 1, WithOption(t, b, cp, val))
  {
    hide Entered, Lookup, WithOption, NulAt;
    PairStands(b, cp, name, v, rest);
    var val := cp + |name| + 1;
    assert b[cp] == StringAt(b, cp)[0] && name[0] in name;
    assert b[val] == StringAt(b, val)[0] && v[0] in v;
    assert OptionsFrom(b, cp, t) == ValueFrom(b, cp, val, t);
  }

  /** One that names a numeric option and a proper number sets its row. */
  lemma PairEntered(b: bytes, cp: nat, t: Table, o: Opt, n: nat, rest: bytes)
    requires cp <= |b| && n <= UINTMAX && b[cp..] == Pair(Name(o), Decimal(n)) + rest
    requires o != COOKIE
    ensures var next := cp + |Name(o)| + |Decimal(n)| + 2;
      && next <= |b| && b[next..] == rest
      && OptionsFrom(b, cp, t)
         == OptionsFrom(b, next, t[o := Entry(true, t[o].ack, cp, n, Decimal(n) + [ZERO])])
  {
    hide Name, Decimal, ToUMax, Lookup, NulAt, Pair, OptionsFrom;
    NumberRoundTrip(n);
    NameFound(o);
    PairStands(b, cp, Name(o), Decimal(n), rest);
    PairTaken(b, cp, t, Name(o), Decimal(n), rest);
  }

  /** The options are told apart by their names, whatever the case of the letters. */
  lemma NameFound(o: Opt)
    ensures Lookup(Name(o), 0) < |Order| && Order[Lookup(Name(o), 0)] == o
  {
    hide SameName;
    var i := Lookup(Name(o), 0);
    var k := Row(o);
    SameNameSelf(Name(Order[k]));
    assert i <= k;
    if i < k {
      NamesDiffer(Order[i], o);
    }
  }

  lemma SameNameSelf(name: bytes)
    ensures SameName(name, name)
  {
  }

  function Row(o: Opt): (k: nat)
    ensures k < |Order| && Order[k] == o
  {
    match o
    case BLKSIZE => 0
    case BLKSIZE2 => 1
    case COOKIE => 2
    case ROLLOVER => 3
    case TIMEOUT => 4
    case TSIZE => 5
    case UTIMEOUT => 6
    case WINDOWSIZE => 7
  }

  /** By their length or, where that is the same, by their first letter. */
  lemma NamesDiffer(a: Opt, b: Opt)
    requires a != b
    ensures !SameName(Name(a), Name(b))
  {
    assert |Name(a)| != |Name(b)| || Fold(Name(a)[0]) != Fold(Name(b)[0]);
  }
}
