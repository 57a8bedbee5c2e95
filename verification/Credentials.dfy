/**
 The `users` table of src/Database.cpp: registration, renaming, login, and the
 loops that build user ids and hexadecimal hashes. SHA-256 is an unknown function.
 */
module Credentials {
  import opened Common

  type Byte = b: int | 0 <= b < 256

  /** The digest of a salted password. */
  type Digest = string -> seq<Byte>

  // ---- Hexadecimal ----------------------------------------------------------

  const HEX_DIGITS: string := "0123456789abcdef"

  /** One byte, lower case, padded to two digits. */
  function HexByte(b: Byte): string {
    [HEX_DIGITS[b / 16], HEX_DIGITS[b % 16]]
  }

  function Hex(bytes: seq<Byte>): string {
    if |bytes| == 0 then "" else Hex(bytes[..|bytes| - 1]) + HexByte(bytes[|bytes| - 1])
  }

  /** The value of a hexadecimal digit, lower case; None for any other character. */
  function DigitValue(c: char): Option<nat> {
    if '0' <= c <= '9' then Some((c - '0') as nat)
    else if 'a' <= c <= 'f' then Some((c - 'a') as nat + 10)
    else None
  }

  /** Two lower-case digits per byte, the high one first, and nothing else. */
  ghost predicate IsHexOf(ss: string, bytes: seq<Byte>) {
    && |ss| == 2 * |bytes|
    && forall i :: 0 <= i < |bytes| ==>
         var high, low := DigitValue(ss[2 * i]), DigitValue(ss[2 * i + 1]);
         high.Some? && low.Some? && 16 * high.value + low.value == bytes[i]
  }

  lemma HexByteValue(b: Byte)
    ensures var digits := HexByte(b);
            |digits| == 2 && DigitValue(digits[0]) == Some(b / 16) && DigitValue(digits[1]) == Some(b % 16)
  {
    HexDigitValue(b / 16);
    HexDigitValue(b % 16);
  }

  lemma HexDigitValue(i: nat)
    requires i < 16
    ensures DigitValue(HEX_DIGITS[i]) == Some(i)
  {
  }

  lemma IsHexAppend(ss: string, bytes: seq<Byte>, high: char, low: char, b: Byte)
    requires IsHexOf(ss, bytes)
    requires DigitValue(high) == Some(b / 16) && DigitValue(low) == Some(b % 16)
    ensures IsHexOf(ss + [high, low], bytes + [b])
  {
    hide DigitValue;
    var n, more := |bytes|, ss + [high, low];
    assert more[2 * n] == high && more[2 * n + 1] == low && 16 * (b / 16) + b % 16 == b;
    forall i | 0 <= i < n ensures more[2 * i] == ss[2 * i] && more[2 * i + 1] == ss[2 * i + 1] {
    }
  }

  lemma {:induction false} HexIsHex(bytes: seq<Byte>)
    ensures IsHexOf(Hex(bytes), bytes)
  {
    if |bytes| > 0 {
      var before, b := bytes[..|bytes| - 1], bytes[|bytes| - 1];
      assert bytes == before + [b];
      HexByteValue(b);
      HexIsHex(before);
      hide DigitValue, IsHexOf;
      IsHexAppend(Hex(before), before, HexByte(b)[0], HexByte(b)[1], b);
      assert HexByte(b) == [HexByte(b)[0], HexByte(b)[1]];
    }
  }

  method HexEncode(bytes: seq<Byte>) returns (ss: string)
    ensures ss == Hex(bytes)
    ensures IsHexOf(ss, bytes)
  {
    HexIsHex(bytes);
    ss := "";
    var i := 0;
    while i < |bytes|
      invariant 0 <= i <= |bytes|
      invariant ss == Hex(bytes[..i])
    {
      assert bytes[..i + 1][..i] == bytes[..i];
      ss := ss + HexByte(bytes[i]);
      i := i + 1;
    }
    assert bytes[..i] == bytes;
  }

  lemma HexByteInjective(a: Byte, b: Byte)
    requires HexByte(a) == HexByte(b)
    ensures a == b
  {
    var high, low := HexByte(a)[0], HexByte(a)[1];
    assert high == HEX_DIGITS[a / 16] == HEX_DIGITS[b / 16];
    assert low == HEX_DIGITS[a % 16] == HEX_DIGITS[b % 16];
    DigitsDiffer(a / 16, b / 16);
    DigitsDiffer(a % 16, b % 16);
  }

  lemma DigitsDiffer(i: nat, j: nat)
    requires i < 16 && j < 16 && HEX_DIGITS[i] == HEX_DIGITS[j]
    ensures i == j
  {
  }

  /** Two digests print the same exactly when they are the same. */
  lemma {:induction false} HexExact(a: seq<Byte>, b: seq<Byte>)
    ensures Hex(a) == Hex(b) <==> a == b
    decreases |a|
  {
    HexLength(a);
    HexLength(b);
    if Hex(a) == Hex(b) && |a| > 0 {
      var n := |a| - 1;
      hide Hex, HexByte;
      HexLast(a, n);
      HexLast(b, n);
      HexByteInjective(a[n], b[n]);
      HexExact(a[..n], b[..n]);
      assert a == a[..n] + [a[n]] && b == b[..n] + [b[n]];
    }
  }

  /** The last byte is the last two digits. */
  lemma HexLast(bytes: seq<Byte>, n: nat)
    requires |bytes| == n + 1
    ensures |Hex(bytes)| == 2 * n + 2
    ensures Hex(bytes)[..2 * n] == Hex(bytes[..n]) && Hex(bytes)[2 * n..] == HexByte(bytes[n])
  {
    HexLength(bytes);
    hide HexByte;
    assert Hex(bytes) == Hex(bytes[..n]) + HexByte(bytes[n]);
  }

  lemma {:induction false} HexLength(bytes: seq<Byte>)
    ensures |Hex(bytes)| == 2 * |bytes|
    ensures |bytes| > 0 ==> |Hex(bytes[..|bytes| - 1])| == 2 * (|bytes| - 1)
  {
    if |bytes| > 0 {
      HexLength(bytes[..|bytes| - 1]);
    }
  }

  // ---- User ids ---------------------------------------------------------------

  const ID_DIGITS: string := "123456789"

  lemma IdDigit(pick: nat)
    requires pick < 9
    ensures ID_DIGITS[pick] == '1' + pick as char
  {
  }

  /** `generateUUID`, from the nine random draws: nine digits, none of them 0. */
  method GenerateUserId(picks: seq<nat>) returns (id: string)
    requires |picks| == 9 && forall i :: 0 <= i < 9 ==> picks[i] < 9
    ensures |id| == 9 && forall i :: 0 <= i < 9 ==> id[i] == '1' + picks[i] as char && '1' <= id[i] <= '9'
  {
    id := "";
    var i := 0;
    while i < 9
      invariant 0 <= i <= 9 && |id| == i
      invariant forall j :: 0 <= j < i ==> id[j] == '1' + picks[j] as char && '1' <= id[j] <= '9'
    {
      IdDigit(picks[i]);
      id := id + [ID_DIGITS[picks[i]]];
      i := i + 1;
    }
  }

  // ---- Accounts -----------------------------------------------------------------

  /** A row of `users`; a NULL username is None. */
  datatype User = User(username: Option<string>, passwordHash: string, salt: string)

  datatype Event =
    | Register(id: string, password: string, salt: string, username: string)
    | Rename(id: string, username: string)

  function HashPassword(digest: Digest, password: string, salt: string): string {
    Hex(digest(password + salt))
  }

  /** The INSERT fails on an id that is taken; the UPDATE of an unknown id changes nothing. */
  function Apply(digest: Digest, users: map<string, User>, e: Event): map<string, User> {
    match e
    case Register(id, password, salt, username) =>
      if id in users then users else users[id := User(Some(username), HashPassword(digest, password, salt), salt)]
    case Rename(id, username) =>
      if id in users then users[id := users[id].(username := Some(username))] else users
  }

  function Table(digest: Digest, trace: seq<Event>): map<string, User> {
    if |trace| == 0 then map[] else Apply(digest, Table(digest, trace[..|trace| - 1]), trace[|trace| - 1])
  }

  lemma TableAppend(digest: Digest, trace: seq<Event>, e: Event)
    ensures Table(digest, trace + [e]) == Apply(digest, Table(digest, trace), e)
  {
  }

  function Authenticate(digest: Digest, users: map<string, User>, id: string, password: string): Option<string> {
    if id in users && HashPassword(digest, password, users[id].salt) == users[id].passwordHash
    then users[id].username else None
  }

  /** What an account is: the first registration of its id, under its latest name. */
  datatype Account = Account(password: string, salt: string, username: string)

  function Owner(trace: seq<Event>, id: string): Option<Account> {
    if |trace| == 0 then None else
      var before, e := Owner(trace[..|trace| - 1], id), trace[|trace| - 1];
      if e.id != id then before
      else match e
        case Register(_, password, salt, username) =>
          if before.Some? then before else Some(Account(password, salt, username))
        case Rename(_, username) =>
          if before.Some? then Some(before.value.(username := username)) else None
  }

  lemma {:induction false} TableHoldsAccounts(digest: Digest, trace: seq<Event>, id: string)
    ensures var users, owner := Table(digest, trace), Owner(trace, id);
            && (id in users <==> owner.Some?)
            && (owner.Some? ==>
                  users[id] == User(Some(owner.value.username),
                                    HashPassword(digest, owner.value.password, owner.value.salt), owner.value.salt))
  {
    if |trace| > 0 {
      TableHoldsAccounts(digest, trace[..|trace| - 1], id);
    }
  }

  /**
   After any history, logging in succeeds exactly for the password of the id's
   first registration (up to digest collisions), and yields the latest name.
   */
  lemma LoginExact(digest: Digest, trace: seq<Event>, id: string, password: string)
    ensures Authenticate(digest, Table(digest, trace), id, password) ==
            match Owner(trace, id)
            case None => None
            case Some(a) => if digest(password + a.salt) == digest(a.password + a.salt) then Some(a.username) else None
  {
    TableHoldsAccounts(digest, trace, id);
    match Owner(trace, id)
    case None =>
    case Some(a) => HexExact(digest(password + a.salt), digest(a.password + a.salt));
  }

  lemma {:induction false} OwnerSurvives(trace: seq<Event>, later: seq<Event>, id: string)
    requires Owner(trace, id).Some?
    ensures var a, b := Owner(trace, id), Owner(trace + later, id);
            b.Some? && b.value.password == a.value.password && b.value.salt == a.value.salt
  {
    if |later| == 0 {
      assert trace + later == trace;
    } else {
      assert (trace + later)[..|trace + later| - 1] == trace + later[..|later| - 1];
      OwnerSurvives(trace, later[..|later| - 1], id);
    }
  }

  /** Once an id is registered, nothing that happens later changes which passwords log in. */
  lemma RegistrationSurvives(digest: Digest, trace: seq<Event>, later: seq<Event>, id: string, password: string)
    requires id in Table(digest, trace)
    ensures Authenticate(digest, Table(digest, trace + later), id, password).Some?
       <==> Authenticate(digest, Table(digest, trace), id, password).Some?
  {
    TableHoldsAccounts(digest, trace, id);
    OwnerSurvives(trace, later, id);
    LoginExact(digest, trace, id, password);
    LoginExact(digest, trace + later, id, password);
  }
}
