/** What a request says, string by string: every packet is a list of strings, possibly
    cut off by an empty string or left open at its end, and that list alone decides the
    mode, the errors and the rows of the option table.  And what an OACK says. */
module RequestMeaning {
  import opened Wrappers
  import opened Octets
  import opened Requests
  import opened Negotiation

  // ------------------------------------------------------------------------ spelling

  /** The bytes are the codes of the characters. */
  predicate Reads(b: bytes, s: string) {
    |b| == |s| && forall i :: 0 <= i < |s| ==> b[i] as int == s[i] as int
  }

  /** The names of the options. */
  lemma OptionsSpelled()
    ensures Reads(Name(BLKSIZE), "blksize") && Reads(Name(BLKSIZE2), "blksize2")
    ensures Reads(Name(COOKIE), "cookie") && Reads(Name(ROLLOVER), "rollover")
  {
    assert Reads(Name(BLKSIZE), "blksize");
  }

  lemma MoreOptionsSpelled()
    ensures Reads(Name(TIMEOUT), "timeout") && Reads(Name(TSIZE), "tsize")
    ensures Reads(Name(UTIMEOUT), "utimeout") && Reads(Name(WINDOWSIZE), "windowsize")
  {
    assert Reads(Name(TIMEOUT), "timeout");
  }

  /** And of the modes. */
  lemma ModesSpelled()
    ensures Reads(ModeName(NETASCII), "netascii") && Reads(ModeName(OCTET), "octet")
  {
    assert Reads(ModeName(OCTET), "octet");
  }

  // ------------------------------------------------------------------------- numbers

  /** Behind a digit a number is accepted exactly if only digits follow and it fits 64
      bits, and it is the number that they write. */
  lemma DigitsRead(s: bytes)
    requires s != [] && IsDigit(s[0])
    ensures ToUMax(s).Some? <==> AllDigits(s) && Magnitude(s) <= UINTMAX
    ensures ToUMax(s).Some? ==> ToUMax(s).value == Magnitude(s)
  {
    hide Magnitude, IsSpace, IsDigit, AllDigits;
    DigitIsPlain(s[0]);
    assert SkipSpace(s) == s;
  }

  /** White space before a number is skipped, and a plus sign means nothing; a minus sign
      takes the value from 2^64, unless it is 0. */
  lemma SignsRead(s: bytes, c: octet)
    requires s != [] && IsDigit(s[0])
    ensures IsSpace(c) ==> ToUMax([c] + s) == ToUMax(s)
    ensures c == 0x2b ==> ToUMax([c] + s) == ToUMax(s)
    ensures c == 0x2d ==>
      ToUMax([c] + s) == if ToUMax(s).Some? && ToUMax(s).value > 0
                         then Some(0x1_0000_0000_0000_0000 - ToUMax(s).value) else ToUMax(s)
  {
    DigitIsPlain(s[0]);
    SignIsNoSpace(c);
    hide Magnitude, IsSpace, IsDigit, AllDigits;
    var t := [c] + s;
    assert t[1..] == s;
    assert SkipSpace(s) == s;
    assert IsSpace(c) ==> SkipSpace(t) == SkipSpace(s);
    assert c == 0x2b || c == 0x2d ==> SkipSpace(t) == t;
  }

  lemma SignIsNoSpace(c: octet)
    ensures c == 0x2b || c == 0x2d ==> !IsSpace(c)
  {
  }

  /** A number is one of its digits less, ten times over, and the last one. */
  lemma MagnitudeDigits(s: bytes, v: nat)
    requires v < 10
    ensures Magnitude([]) == 0 && Magnitude(s + [DigitByte(v)]) == 10 * Magnitude(s) + v
  {
    var t := s + [DigitByte(v)];
    assert t[..|t| - 1] == s;
  }

  // ------------------------------------------------------------------------- strings

  predicate Proper(fields: seq<bytes>) {
    forall i :: 0 <= i < |fields| ==> fields[i] != [] && Plain(fields[i])
  }

  /** Strings one after the other, each with its NUL. */
  function Packed(fields: seq<bytes>): bytes {
    if fields == [] then [] else fields[0] + [ZERO] + Packed(fields[1..])
  }

  /** What comes after the strings: the end or an empty string, or a string without a NUL. */
  predicate Closed(tail: bytes) {
    tail == [] || tail[0] == ZERO
  }

  predicate Torn(tail: bytes) {
    tail != [] && Plain(tail)
  }

  /** Every packet can be read so. */
  lemma {:induction false} PacketSplits(b: bytes) returns (fields: seq<bytes>, tail: bytes)
    ensures b == Packed(fields) + tail && Proper(fields) && (Closed(tail) || Torn(tail))
    decreases |b|
  {
    if b == [] || b[0] == ZERO {
      fields, tail := [], b;
    } else {
      var n := NulAt(b, 0);
      if n == |b| {
        fields, tail := [], b;
      } else {
        var head, rest := b[..n], b[n + 1..];
        assert b == head + [ZERO] + rest;
        var more;
        more, tail := PacketSplits(rest);
        fields := [head] + more;
        assert fields[1..] == more;
      }
    }
  }

  lemma PackedHead(b: bytes, cp: nat, fields: seq<bytes>, tail: bytes)
    requires cp <= |b| && fields != [] && Proper(fields) && b[cp..] == Packed(fields) + tail
    ensures var next := cp + |fields[0]| + 1;
      && cp < next <= |b| && b[cp] != ZERO && NulAt(b, cp) == next - 1 && StringAt(b, cp) == fields[0]
      && b[next..] == Packed(fields[1..]) + tail && Proper(fields[1..])
  {
    hide NulAt;
    var s, rest := fields[0], Packed(fields[1..]) + tail;
    assert b[cp..] == s + [ZERO] + rest;
    NulAfter(b, cp, s, rest);
    assert b[cp] == s[0] && s[0] in s;
  }

  lemma PackedEnd(b: bytes, cp: nat, tail: bytes)
    requires cp <= |b| && b[cp..] == Packed([]) + tail && (Closed(tail) || Torn(tail))
    ensures Closed(tail) ==> cp == |b| || b[cp] == ZERO
    ensures Torn(tail) ==> cp < |b| && b[cp] != ZERO && NulAt(b, cp) == |b|
  {
    assert b[cp..] == tail;
    if tail != [] {
      assert b[cp] == tail[0];
    }
    if Torn(tail) {
      forall j | cp <= j < |b| ensures b[j] != ZERO {
        assert b[j] == tail[j - cp];
      }
    }
  }

  // --------------------------------------------------------------------- the options

  /** A value that sets the row of an option: any for the cookie, and else the decimal
      digits of a 64-bit number. */
  predicate Suitable(o: Opt, value: bytes) {
    o == COOKIE || (value != [] && AllDigits(value) && Magnitude(value) <= UINTMAX)
  }

  /** The last suitable value that the strings, name and value in turn, give option o. */
  function Given(fields: seq<bytes>, o: Opt): Option<bytes> {
    if |fields| < 2 then None
    else
      var later := Given(fields[2..], o);
      if later.Some? then later
      else if SameName(Name(o), fields[0]) && Suitable(o, fields[1]) then Some(fields[1])
      else None
  }

  /** A row as the request leaves it. */
  predicate RowSet(before: Entry, after: Entry, o: Opt, given: Option<bytes>) {
    if given.None? then after.req == before.req && after.value == before.value && after.text == before.text
    else
      && after.req && after.text == given.value + [ZERO]
      && after.value == if o == COOKIE then before.value else Magnitude(given.value)
  }

  lemma LookupExactly(name: bytes, o: Opt)
    ensures SameName(Name(o), name) <==> Lookup(name, 0) < |Order| && Order[Lookup(name, 0)] == o
  {
    hide SameName, Name;
    var i, k := Lookup(name, 0), Row(o);
    if SameName(Name(o), name) {
      assert i <= k;
      if i < k {
        SameNames(Order[i], o, name);
        NamesDiffer(Order[i], o);
      }
    }
  }

  lemma SameNames(a: Opt, b: Opt, name: bytes)
    requires SameName(Name(a), name) && SameName(Name(b), name)
    ensures SameName(Name(a), Name(b))
  {
    hide Name, Fold;
  }

  /** One pair sets the row of its option, if the value is suitable, and no other. */
  lemma PairSetsRow(t: Table, b: bytes, opt: nat, val: nat, o: Opt)
    requires opt <= |b| && val <= |b| && NulAt(b, val) < |b| && StringAt(b, opt) != [] && StringAt(b, val) != []
    ensures var name, value := StringAt(b, opt), StringAt(b, val);
      RowSet(t[o], WithOption(t, b, opt, val)[o], o,
             if SameName(Name(o), name) && Suitable(o, value) then Some(value) else None)
  {
    hide SameName, Name, ToUMax, NulAt, Lookup, Magnitude, AllDigits;
    var name, value := StringAt(b, opt), StringAt(b, val);
    LookupExactly(name, o);
    if IsDigit(value[0]) {
      DigitsRead(value);
    } else {
      assert !AllDigits(value) by { NotDigits(value); }
    }
    assert b[val..NulAt(b, val) + 1] == value + [ZERO];
  }

  lemma NotDigits(s: bytes)
    requires s != [] && !IsDigit(s[0])
    ensures !AllDigits(s)
  {
  }

  lemma {:induction false} OptionsSetRows(b: bytes, cp: nat, t: Table, fields: seq<bytes>, tail: bytes, o: Opt)
    requires cp <= |b| && Proper(fields) && b[cp..] == Packed(fields) + tail && (Closed(tail) || Torn(tail))
    ensures OptionsFrom(b, cp, t).None? <==> Torn(tail)
    ensures Closed(tail) ==> RowSet(t[o], OptionsFrom(b, cp, t).value[o], o, Given(fields, o))
    decreases |fields|
  {
    hide NulAt, WithOption, Suitable, SameName, Name, OptionsFrom, ValueFrom, Packed, RowSet;
    ApartTail(tail);
    if fields == [] {
      PackedEnd(b, cp, tail);
      if Closed(tail) { NothingRead(b, cp, cp, t); } else { OptionRead(b, cp, t); }
      RowUnset(t[o], o);
    } else {
      PackedHead(b, cp, fields, tail);
      OptionRead(b, cp, t);
      var val, rest := cp + |fields[0]| + 1, fields[1..];
      if rest == [] {
        PackedEnd(b, val, tail);
        if Closed(tail) { NothingRead(b, cp, val, t); } else { ValueRead(b, cp, val, t); }
        RowUnset(t[o], o);
      } else {
        PackedHead(b, val, rest, tail);
        ValueRead(b, cp, val, t);
        var t' := WithOption(t, b, cp, val);
        PairSetsRow(t, b, cp, val, o);
        assert rest[1..] == fields[2..] && rest[0] == fields[1];
        OptionsSetRows(b, val + |rest[0]| + 1, t', fields[2..], tail, o);
        if Closed(tail) {
          RowSetTwice(t[o], t'[o], OptionsFrom(b, cp, t).value[o], o,
                      if SameName(Name(o), fields[0]) && Suitable(o, fields[1]) then Some(fields[1]) else None,
                      Given(fields[2..], o));
        }
      }
    }
  }

  lemma ApartTail(tail: bytes)
    ensures !(Closed(tail) && Torn(tail))
  {
    if tail != [] {
      assert tail[0] in tail;
    }
  }

  lemma RowUnset(e: Entry, o: Opt)
    ensures RowSet(e, e, o, None)
  {
  }

  lemma RowSetTwice(e: Entry, e': Entry, e'': Entry, o: Opt, first: Option<bytes>, second: Option<bytes>)
    requires RowSet(e, e', o, first) && RowSet(e', e'', o, second)
    ensures RowSet(e, e'', o, if second.Some? then second else first)
  {
  }

  // --------------------------------------------------------------------- the request

  /** The whole request: without a name and a mode it is refused for the missing mode, an
      unknown mode is refused, and so is a request that ends within a string; otherwise
      it is accepted, and an option counts as asked for exactly if the strings after the
      mode give it a suitable value, with the last such value. */
  lemma RequestRead(fields: seq<bytes>, tail: bytes, o: Opt)
    requires Proper(fields) && (Closed(tail) || Torn(tail))
    ensures var p := Parsed(Packed(fields) + tail);
      if |fields| < 2 then p == if Torn(tail) then NotTerminated else MissingMode
      else
        var octet, netascii := SameName(ModeName(OCTET), fields[1]), SameName(ModeName(NETASCII), fields[1]);
        if !octet && !netascii then p == UnknownMode
        else if Torn(tail) then p == NotTerminated
        else
          && p.Accepted? && (p.mode == NETASCII <==> netascii)
          && p.table[o].req == Given(fields[2..], o).Some?
          && RowSet(Unasked, p.table[o], o, Given(fields[2..], o))
  {
    hide NulAt, SameName, ModeName, OptionsFrom, Packed, RowSet, Given, Parsed, ModeFrom, Name;
    ApartTail(tail);
    var b := Packed(fields) + tail;
    assert b[0..] == b;
    if fields == [] {
      PackedEnd(b, 0, tail);
      if Closed(tail) { NothingRead(b, 0, 0, Blank); } else { NameRead(b); }
    } else {
      PackedHead(b, 0, fields, tail);
      NameRead(b);
      var cp, rest := |fields[0]| + 1, fields[1..];
      if rest == [] {
        PackedEnd(b, cp, tail);
        if Closed(tail) { NothingRead(b, 0, cp, Blank); } else { ModeRead(b, cp); }
      } else {
        PackedHead(b, cp, rest, tail);
        ModeRead(b, cp);
        assert rest[1..] == fields[2..] && rest[0] == fields[1];
        OptionsSetRows(b, cp + |rest[0]| + 1, Blank, fields[2..], tail, o);
        if Closed(tail) && FindMode(fields[1]).Some? {
          BlankRow(o, Parsed(b).table[o], Given(fields[2..], o));
        }
      }
    }
  }

  lemma BlankRow(o: Opt, e: Entry, given: Option<bytes>)
    requires RowSet(Blank[o], e, o, given)
    ensures RowSet(Unasked, e, o, given) && e.req == given.Some?
  {
  }
}
