/** Saved account records and the pure operations of background.js on the
    saved list: building a record, finding, deleting and renaming by id. */
module Sessions {
  import opened Wrappers
  import opened KeyValue
  import opened Json

  /** One saved account: `tokens` is the captured storage; `expired` is only
      ever read (a record saved here has it false). */
  datatype Session = Session(
    id: string,
    name: string,
    email: string,
    color: string,
    tokens: Entries,
    savedAt: string,
    expired: bool)

  /** The payload of a `SAVE_SESSION` message; an empty string is a missing
      (falsy) value. */
  datatype SaveData = SaveData(name: string, color: string)

  /** The colours `getRandomColor` picks from. */
  const Palette: seq<string> := [
    "#3ECF8E", "#F472B6", "#60A5FA", "#FBBF24", "#A78BFA",
    "#34D399", "#F87171", "#38BDF8", "#FB923C", "#818CF8"]

  /** The name given to an account when neither a name nor an email is known. */
  const UnnamedAccount: string := "Conta sem nome"

  function DigitChar(d: nat): (c: char)
    requires d < 10
    ensures '0' <= c <= '9' && c as int - '0' as int == d
  {
    ('0' as int + d) as char
  }

  /** The decimal text of a number, as a template literal prints it. */
  function Decimal(n: nat): (s: string)
    ensures |s| >= 1
    ensures forall i :: 0 <= i < |s| ==> '0' <= s[i] <= '9'
    ensures n == 0 || s[0] != '0'
  {
    if n < 10 then [DigitChar(n)] else Decimal(n / 10) + [DigitChar(n % 10)]
  }

  /** The number a string of decimal digits denotes. */
  function DecimalValue(s: string): nat
    requires forall i :: 0 <= i < |s| ==> '0' <= s[i] <= '9'
  {
    if s == [] then 0
    else DecimalValue(s[..|s| - 1]) * 10 + (s[|s| - 1] as int - '0' as int)
  }

  lemma {:induction false} DecimalRoundTrip(n: nat)
    ensures DecimalValue(Decimal(n)) == n
  {
    if n >= 10 {
      var s := Decimal(n);
      assert s[..|s| - 1] == Decimal(n / 10);
      DecimalRoundTrip(n / 10);
    }
  }

  /** A string of digits without a leading zero (other than `"0"` itself). */
  predicate Canonical(s: string) {
    |s| >= 1 && (forall i :: 0 <= i < |s| ==> '0' <= s[i] <= '9') && (|s| == 1 || s[0] != '0')
  }

  /** The printed text is the only canonical digit string with value `n`. */
  lemma {:induction false} DecimalCanonical(n: nat, t: string)
    requires Canonical(t) && DecimalValue(t) == n
    ensures t == Decimal(n)
    decreases |t|
  {
    if |t| > 1 {
      var init := t[..|t| - 1];
      assert Canonical(init) by {
        assert init[0] == t[0];
      }
      CanonicalValue(init);
      DecimalCanonical(n / 10, init);
      assert t == init + [t[|t| - 1]];
    }
  }

  /** A canonical string of two or more digits is worth at least ten. */
  lemma {:induction false} CanonicalValue(t: string)
    requires Canonical(t)
    ensures |t| > 1 ==> DecimalValue(t) >= 10
    ensures DecimalValue(t) == 0 ==> t == "0"
    decreases |t|
  {
    if |t| > 1 {
      var init := t[..|t| - 1];
      assert Canonical(init) by {
        assert init[0] == t[0];
      }
      CanonicalValue(init);
    }
  }

  /** The id of a record saved at time `now` (milliseconds): `session_`
      followed by digits that read back as `now`. */
  function SessionId(now: nat): (r: string)
    ensures |r| > 8 && r[..8] == "session_"
    ensures Canonical(r[8..]) && DecimalValue(r[8..]) == now
  {
    DecimalRoundTrip(now);
    var r := "session_" + Decimal(now);
    assert r[8..] == Decimal(now);
    r
  }

  /** Records saved at different milliseconds get different ids. */
  lemma SessionIdInjective(a: nat, b: nat)
    ensures SessionId(a) == SessionId(b) ==> a == b
  {
    if SessionId(a) == SessionId(b) {
      assert Decimal(a) == SessionId(a)[8..];
      assert Decimal(b) == SessionId(b)[8..];
      DecimalRoundTrip(a);
      DecimalRoundTrip(b);
    }
  }

  /** `userInfo?.email || ''`. */
  function KnownEmail(userInfo: Option<User>): (r: string)
    ensures r != "" <==> userInfo.Some? && Truthy(userInfo.value.email)
    ensures r != "" ==> userInfo.value.email == Some(r)
  {
    if userInfo.Some? && Truthy(userInfo.value.email) then userInfo.value.email.value else ""
  }

  /** The record `handleSaveSession` builds. `colorIndex` is the index
      `Math.random` picks in the palette; `savedAt` the ISO time text. */
  function NewSession(data: SaveData, tokens: Entries, userInfo: Option<User>,
                      now: nat, colorIndex: nat, savedAt: string): (s: Session)
    requires colorIndex < |Palette|
    ensures s.id == SessionId(now) && s.tokens == tokens && s.savedAt == savedAt && !s.expired
    ensures s.name != "" && s.color != ""
    ensures data.name != "" ==> s.name == data.name
    ensures data.name == "" ==> s.name == if KnownEmail(userInfo) != "" then KnownEmail(userInfo) else UnnamedAccount
    ensures s.email == KnownEmail(userInfo)
    ensures s.color == data.color || (data.color == "" && s.color in Palette)
  {
    var email := KnownEmail(userInfo);
    Session(
      SessionId(now),
      if data.name != "" then data.name else if email != "" then email else UnnamedAccount,
      email,
      if data.color != "" then data.color else Palette[colorIndex],
      tokens,
      savedAt,
      false)
  }

  /** `sessions.find(s => s.id === id)`: the first record with that id. */
  function FindById(sessions: seq<Session>, id: string): (r: Option<Session>)
    ensures r.None? <==> forall i :: 0 <= i < |sessions| ==> sessions[i].id != id
    ensures r.Some? ==> exists i :: 0 <= i < |sessions| && sessions[i] == r.value && r.value.id == id
                                    && forall j :: 0 <= j < i ==> sessions[j].id != id
  {
    if sessions == [] then None
    else if sessions[0].id == id then Some(sessions[0])
    else
      var r := FindById(sessions[1..], id);
      assert r.None? ==> forall i :: 0 <= i < |sessions| ==> sessions[i].id != id by {
        if r.None? {
          forall i | 0 < i < |sessions| ensures sessions[i].id != id {
            assert sessions[i] == sessions[1..][i - 1];
          }
        }
      }
      assert r.Some? ==> exists i :: 0 <= i < |sessions| && sessions[i] == r.value && r.value.id == id
                                     && forall j :: 0 <= j < i ==> sessions[j].id != id by {
        if r.Some? {
          var i :| 0 <= i < |sessions[1..]| && sessions[1..][i] == r.value && r.value.id == id
                   && forall j :: 0 <= j < i ==> sessions[1..][j].id != id;
          assert sessions[i + 1] == r.value;
          forall j | 0 < j < i + 1 ensures sessions[j].id != id {
            assert sessions[j] == sessions[1..][j - 1];
          }
        }
      }
      r
  }

  /** `sessions.filter(s => s.id !== id)`. */
  function DeleteById(sessions: seq<Session>, id: string): (r: seq<Session>)
    ensures forall s :: s in r <==> s in sessions && s.id != id
    ensures |r| <= |sessions|
  {
    if sessions == [] then []
    else if sessions[0].id == id then DeleteById(sessions[1..], id)
    else [sessions[0]] + DeleteById(sessions[1..], id)
  }

  /** Deleting an id that no record has leaves the list as it was. */
  lemma {:induction false} DeleteAbsentIsNoop(sessions: seq<Session>, id: string)
    requires forall i :: 0 <= i < |sessions| ==> sessions[i].id != id
    ensures DeleteById(sessions, id) == sessions
  {
    if sessions != [] {
      DeleteAbsentIsNoop(sessions[1..], id);
    }
  }

  /** Deleting works record by record, so the records kept stay in order. */
  lemma {:induction false} DeleteDistributes(a: seq<Session>, b: seq<Session>, id: string)
    ensures DeleteById(a + b, id) == DeleteById(a, id) + DeleteById(b, id)
  {
    if a == [] {
      assert a + b == b;
    } else {
      assert (a + b)[1..] == a[1..] + b;
      DeleteDistributes(a[1..], b, id);
    }
  }

  /** `sessions.map(s => s.id === id ? { ...s, name } : s)`. */
  function RenameById(sessions: seq<Session>, id: string, name: string): (r: seq<Session>)
    ensures |r| == |sessions|
    ensures forall i :: 0 <= i < |r| ==> r[i].(name := sessions[i].name) == sessions[i]
    ensures forall i :: 0 <= i < |r| ==>
              r[i].name == if sessions[i].id == id then name else sessions[i].name
  {
    if sessions == [] then []
    else
      var s := sessions[0];
      [if s.id == id then s.(name := name) else s] + RenameById(sessions[1..], id, name)
  }

  /** Renaming an id that no record has leaves the list as it was. */
  lemma RenameAbsentIsNoop(sessions: seq<Session>, id: string, name: string)
    requires forall i :: 0 <= i < |sessions| ==> sessions[i].id != id
    ensures RenameById(sessions, id, name) == sessions
  {
    var r := RenameById(sessions, id, name);
    forall i | 0 <= i < |r| ensures r[i] == sessions[i] {
      assert r[i].(name := sessions[i].name) == sessions[i];
    }
  }

  /** After a rename, switching to that id finds the same account under the
      new name: same tokens, same place in the list. */
  lemma {:induction false} FindAfterRename(sessions: seq<Session>, id: string, name: string)
    ensures FindById(RenameById(sessions, id, name), id) ==
            if FindById(sessions, id).Some? then Some(FindById(sessions, id).value.(name := name)) else None
  {
    if sessions != [] {
      var r := RenameById(sessions, id, name);
      assert r[1..] == RenameById(sessions[1..], id, name);
      FindAfterRename(sessions[1..], id, name);
    }
  }
}
