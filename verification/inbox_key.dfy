/** The inbox sort key, its strict total order, and the cursor string that carries it. */
module InboxKey {
  import opened Model
  import opened Decimal

  // ----- keys -----

  datatype CursorKey = CursorKey(nano: int, networkID: string, id: string)

  /** One row: a channel or an agent, its activity, and what is shown. */
  datatype Item = Item(nano: int, networkID: string, id: string, title: string)
  {
    function Key(): CursorKey {
      CursorKey(nano, networkID, id)
    }
  }

  /** Byte order of strings. */
  predicate StrLess(a: string, b: string) {
    b != [] && (a == [] || a[0] < b[0] || (a[0] == b[0] && StrLess(a[1..], b[1..])))
  }

  /** Newest activity first, then network and id descending. */
  predicate Precedes(a: CursorKey, b: CursorKey) {
    if a.nano != b.nano then a.nano > b.nano
    else if a.networkID != b.networkID then StrLess(b.networkID, a.networkID)
    else StrLess(b.id, a.id)
  }

  lemma {:induction false} StrLessTrans(a: string, b: string, c: string)
    requires StrLess(a, b) && StrLess(b, c)
    ensures StrLess(a, c)
  {
    if a != [] && a[0] == b[0] && b[0] == c[0] {
      StrLessTrans(a[1..], b[1..], c[1..]);
    }
  }

  lemma {:induction false} StrLessTotal(a: string, b: string)
    ensures (StrLess(a, b) || StrLess(b, a)) <==> a != b
    ensures !(StrLess(a, b) && StrLess(b, a))
  {
    if a != [] && b != [] && a[0] == b[0] {
      StrLessTotal(a[1..], b[1..]);
      assert a == [a[0]] + a[1..] && b == [b[0]] + b[1..];
    }
  }

  /** The order is strict and total: two different keys are ordered one way only. */
  /** The two strings part at position i, where a stops short or has the smaller character. */
  ghost predicate PartsBelow(a: string, b: string, i: nat) {
    && i <= |a| && i < |b| && a[..i] == b[..i]
    && (i == |a| || a[i] < b[i])
  }

  lemma AlikeAtFirst(a: string, b: string, i: nat)
    requires PartsBelow(a, b, i)
    ensures i > 0 ==> a != [] && b != [] && a[0] == b[0] && PartsBelow(a[1..], b[1..], i - 1)
  {
    if i > 0 {
      assert a[0] == a[..i][0] && b[0] == b[..i][0];
      assert a[1..][..i - 1] == a[..i][1..] && b[1..][..i - 1] == b[..i][1..];
    }
  }

  lemma AlikeAhead(a: string, b: string, i: nat)
    requires a != [] && b != [] && a[0] == b[0] && PartsBelow(a[1..], b[1..], i)
    ensures PartsBelow(a, b, i + 1)
  {
    assert a[..i + 1] == [a[0]] + a[1..][..i] && b[..i + 1] == [b[0]] + b[1..][..i];
  }

  lemma {:induction false} StrLessIff(a: string, b: string)
    ensures StrLess(a, b) <==> exists i: nat :: PartsBelow(a, b, i)
  {
    if i: nat :| PartsBelow(a, b, i) {
      AlikeAtFirst(a, b, i);
    }
    if a != [] && b != [] && a[0] == b[0] {
      StrLessIff(a[1..], b[1..]);
      if i: nat :| PartsBelow(a[1..], b[1..], i) {
        AlikeAhead(a, b, i);
      }
    } else {
      assert StrLess(a, b) ==> PartsBelow(a, b, 0);
    }
  }

  lemma PrecedesTotal(a: CursorKey, b: CursorKey)
    ensures (Precedes(a, b) || Precedes(b, a)) <==> a != b
    ensures !(Precedes(a, b) && Precedes(b, a))
  {
    StrLessTotal(a.networkID, b.networkID);
    StrLessTotal(a.id, b.id);
  }

  lemma PrecedesTrans(a: CursorKey, b: CursorKey, c: CursorKey)
    requires Precedes(a, b) && Precedes(b, c)
    ensures Precedes(a, c)
  {
    if a.nano == b.nano == c.nano {
      if a.networkID == b.networkID == c.networkID {
        StrLessTrans(c.id, b.id, a.id);
      } else if a.networkID != b.networkID && b.networkID != c.networkID {
        StrLessTrans(c.networkID, b.networkID, a.networkID);
        StrLessTotal(a.networkID, b.networkID);
        StrLessTotal(b.networkID, c.networkID);
      }
    }
  }

  // ----- the cursor, below its base64 coat -----

  function Find(s: string, c: char): (i: nat)
    ensures i <= |s| && c !in s[..i]
    ensures i < |s| ==> s[i] == c
  {
    if s == [] || s[0] == c then 0 else
      var i := 1 + Find(s[1..], c);
      assert s[..i] == [s[0]] + s[1..][..i - 1];
      i
  }

  function Encode(k: CursorKey): string {
    Itoa(k.nano) + "\0" + k.networkID + "\0" + k.id
  }

  /** Split at the first two NULs, then parse the first part. */
  function Decode(raw: string): Option<CursorKey> {
    var i := Find(raw, '\0');
    if i == |raw| then None
    else
      var rest := raw[i + 1..];
      var j := Find(rest, '\0');
      if j == |rest| then None
      else
        match ParseInt64(raw[..i])
        case None => None
        case Some(nano) => Some(CursorKey(nano, rest[..j], rest[j + 1..]))
  }

  lemma {:induction false} FindIn(p: string, c: char, tail: string)
    requires c !in p
    ensures Find(p + [c] + tail, c) == |p|
  {
    if p != [] {
      FindIn(p[1..], c, tail);
      assert (p + [c] + tail)[1..] == p[1..] + [c] + tail;
      assert p[0] in p;
    }
  }

  lemma Cut(p: string, c: char, tail: string)
    ensures (p + [c] + tail)[..|p|] == p
    ensures (p + [c] + tail)[|p| + 1..] == tail
  {}

  lemma DecodeParts(raw: string, p: string, rest: string)
    requires Find(raw, '\0') == |p| < |raw| && raw[..|p|] == p && raw[|p| + 1..] == rest
    ensures var j, nano := Find(rest, '\0'), ParseInt64(p);
            Decode(raw) ==
              if j == |rest| || nano.None? then None else Some(CursorKey(nano.value, rest[..j], rest[j + 1..]))
  {}

  /** Decoding reads a printed number back and goes on with the rest. */
  lemma DecodeAfterNumber(nano: int, rest: string)
    requires IsInt64(nano)
    ensures var j := Find(rest, '\0');
            Decode(Itoa(nano) + "\0" + rest) ==
              if j == |rest| then None else Some(CursorKey(nano, rest[..j], rest[j + 1..]))
  {
    ItoaChars(nano);
    ParseItoa(nano);
    var p := Itoa(nano);
    var raw := p + "\0" + rest;
    FindIn(p, '\0', rest);
    Cut(p, '\0', rest);
    DecodeParts(raw, p, rest);
  }

  lemma RestSplitsIff(n: string, id: string)
    ensures var rest := n + "\0" + id; var j := Find(rest, '\0');
            j < |rest| && (rest[..j] == n && rest[j + 1..] == id <==> '\0' !in n)
  {
    var rest := n + "\0" + id;
    assert rest[|n|] == '\0' && rest[..|rest|] == rest;
    if '\0' !in n {
      FindIn(n, '\0', id);
      Cut(n, '\0', id);
    }
  }

  /**
   * The cursor round trip: for every 64-bit time and every id, decoding gives
   * the key back exactly when the network id contains no NUL.
   */
  lemma CursorRoundTripIff(k: CursorKey)
    requires IsInt64(k.nano)
    ensures Decode(Encode(k)) == Some(k) <==> '\0' !in k.networkID
    ensures Encode(k) != ""
  {
    var rest := k.networkID + "\0" + k.id;
    DecodeAfterNumber(k.nano, rest);
    RestSplitsIff(k.networkID, k.id);
    assert Encode(k) == Itoa(k.nano) + "\0" + rest;
  }

  /** A cursor text: a numeral worth the time, a NUL, a network id without one, a NUL, and any id. */
  ghost predicate Spells(raw: string, num: string, k: CursorKey) {
    && ParseInt64(num) == Some(k.nano) && '\0' !in k.networkID
    && raw == num + "\0" + (k.networkID + "\0" + k.id)
  }

  /** Exactly those decode; everything else is refused. */
  lemma DecodeIff(raw: string, k: CursorKey)
    ensures Decode(raw) == Some(k) <==> exists num :: Spells(raw, num, k)
  {
    if Decode(raw) == Some(k) {
      var num := Decoded(raw, k);
    }
    if num :| Spells(raw, num, k) {
      Spelled(raw, num, k);
    }
  }

  lemma Decoded(raw: string, k: CursorKey) returns (num: string)
    requires Decode(raw) == Some(k)
    ensures Spells(raw, num, k)
  {
    SplitAtNul(raw);
    num := raw[..Find(raw, '\0')];
    SplitAtNul(raw[|num| + 1..]);
  }

  lemma SplitAtNul(s: string)
    ensures var i := Find(s, '\0');
            i < |s| ==> s == s[..i] + "\0" + s[i + 1..]
  {}

  lemma Spelled(raw: string, num: string, k: CursorKey)
    requires Spells(raw, num, k)
    ensures Decode(raw) == Some(k)
  {
    var rest := k.networkID + "\0" + k.id;
    NumeralHasNoNul(num, k.nano);
    FindIn(num, '\0', rest);
    Cut(num, '\0', rest);
    DecodeParts(raw, num, rest);
    RestSplitsIff(k.networkID, k.id);
  }

  lemma NumeralHasNoNul(s: string, i: int)
    requires ParseInt64(s) == Some(i)
    ensures '\0' !in s
  {
    var signed := s[0] == '+' || s[0] == '-';
    var body := if signed then s[1..] else s;
    assert s == if signed then [s[0]] + body else body;
  }

  lemma EncodeInjective(a: CursorKey, b: CursorKey)
    requires IsInt64(a.nano) && IsInt64(b.nano)
    requires '\0' !in a.networkID && '\0' !in b.networkID
    requires Encode(a) == Encode(b)
    ensures a == b
  {
    CursorRoundTripIff(a);
    CursorRoundTripIff(b);
  }
}
