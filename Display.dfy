/** The pure helpers of the popup's list rendering (popup.js): the HTML
    escaper, the avatar initials, and the badge and click rules of a row. */
module Display {
  import opened Wrappers
  import opened Strings
  import opened Sessions

  // ---- escHtml -------------------------------------------------------------

  /** `s.replace(/c/g, r)`: every occurrence of the character `c` becomes `r`. */
  function ReplaceAll(s: string, c: char, rep: string): (r: string)
    ensures c !in s ==> r == s
    ensures c !in rep ==> c !in r
  {
    if s == [] then []
    else (if s[0] == c then rep else [s[0]]) + ReplaceAll(s[1..], c, rep)
  }

  lemma {:induction false} ReplaceAllAppend(a: string, b: string, c: char, r: string)
    ensures ReplaceAll(a + b, c, r) == ReplaceAll(a, c, r) + ReplaceAll(b, c, r)
  {
    if a == [] {
      assert a + b == b;
    } else {
      assert (a + b)[1..] == a[1..] + b;
      ReplaceAllAppend(a[1..], b, c, r);
    }
  }

  /** `escHtml`: `&` first, then `<`, then `>`. The result is the text
      escaped character by character. */
  function Escape(s: string): (r: string)
    ensures r == EscapeChars(s)
  {
    EscapeIsPerCharacter(s);
    ReplaceAll(ReplaceAll(ReplaceAll(s, '&', "&amp;"), '<', "&lt;"), '>', "&gt;")
  }

  /** The entity for one character; every other character stands for itself. */
  function EscapeChar(c: char): (r: string)
    ensures c != '&' && c != '<' && c != '>' ==> r == [c]
  {
    if c == '&' then "&amp;" else if c == '<' then "&lt;" else if c == '>' then "&gt;" else [c]
  }

  /** Escaping character by character, the reference for `escHtml`. */
  function EscapeChars(s: string): string {
    if s == [] then [] else EscapeChar(s[0]) + EscapeChars(s[1..])
  }

  /** Decoding of the three entities `escHtml` produces. */
  function Unescape(t: string): string
    decreases |t|
  {
    if t == [] then []
    else if StartsWith(t, "&amp;") then ['&'] + Unescape(t[5..])
    else if StartsWith(t, "&lt;") then ['<'] + Unescape(t[4..])
    else if StartsWith(t, "&gt;") then ['>'] + Unescape(t[4..])
    else [t[0]] + Unescape(t[1..])
  }

  /** The three chained replacements escape each character on its own:
      replacing `&` first means no entity written for `<` or `>` is escaped
      again. */
  lemma {:induction false} EscapeIsPerCharacter(s: string)
    ensures ReplaceAll(ReplaceAll(ReplaceAll(s, '&', "&amp;"), '<', "&lt;"), '>', "&gt;") == EscapeChars(s)
  {
    if s != [] {
      assert s == [s[0]] + s[1..];
      EscapeAppend([s[0]], s[1..]);
      EscapeOfOne(s[0]);
      EscapeIsPerCharacter(s[1..]);
    }
  }

  /** The chained replacements of a concatenation are the concatenation of
      the chained replacements. */
  lemma EscapeAppend(a: string, b: string)
    ensures ReplaceAll(ReplaceAll(ReplaceAll(a + b, '&', "&amp;"), '<', "&lt;"), '>', "&gt;")
         == ReplaceAll(ReplaceAll(ReplaceAll(a, '&', "&amp;"), '<', "&lt;"), '>', "&gt;")
          + ReplaceAll(ReplaceAll(ReplaceAll(b, '&', "&amp;"), '<', "&lt;"), '>', "&gt;")
  {
    var a1, b1 := ReplaceAll(a, '&', "&amp;"), ReplaceAll(b, '&', "&amp;");
    ReplaceAllAppend(a, b, '&', "&amp;");
    var a2, b2 := ReplaceAll(a1, '<', "&lt;"), ReplaceAll(b1, '<', "&lt;");
    ReplaceAllAppend(a1, b1, '<', "&lt;");
    ReplaceAllAppend(a2, b2, '>', "&gt;");
  }

  /** The chained replacements turn one character into its entity. */
  lemma EscapeOfOne(x: char)
    ensures ReplaceAll(ReplaceAll(ReplaceAll([x], '&', "&amp;"), '<', "&lt;"), '>', "&gt;") == EscapeChar(x)
  {
    ReplaceOne(x, '&', "&amp;");
    var p1 := if x == '&' then "&amp;" else [x];
    if x == '&' {
      assert '<' !in p1 && '>' !in p1;
    } else if x == '<' {
      ReplaceOne(x, '<', "&lt;");
      assert '>' !in "&lt;";
    } else {
      ReplaceOne(x, '<', "&lt;");
      ReplaceOne(x, '>', "&gt;");
    }
  }

  lemma ReplaceOne(x: char, c: char, r: string)
    ensures ReplaceAll([x], c, r) == if x == c then r else [x]
  {
    assert [x][1..] == [];
  }

  /** Decoding an escaped text gives back the text. */
  lemma {:induction false} EscapeRoundTrip(s: string)
    ensures Unescape(Escape(s)) == s
  {
    UnescapeEscapeChars(s);
  }

  lemma {:induction false} UnescapeEscapeChars(s: string)
    ensures Unescape(EscapeChars(s)) == s
  {
    if s != [] {
      var x, rest := s[0], EscapeChars(s[1..]);
      var t := EscapeChar(x) + rest;
      assert EscapeChars(s) == t;
      if x == '&' {
        assert t[..5] == "&amp;" && t[5..] == rest;
      } else if x == '<' {
        assert t[..4] == "&lt;" && t[4..] == rest;
        assert |t| >= 5 ==> t[..5][1] == t[1];
      } else if x == '>' {
        assert t[..4] == "&gt;" && t[4..] == rest;
        assert |t| >= 5 ==> t[..5][1] == t[1];
        assert |t| >= 4 ==> t[..4][1] == t[1];
      } else {
        assert t[0] == x && t[1..] == rest;
        assert |t| >= 5 ==> t[..5][0] == t[0];
        assert |t| >= 4 ==> t[..4][0] == t[0];
      }
      UnescapeEscapeChars(s[1..]);
    }
  }

  /** An escaped text holds no `<` and no `>`. */
  lemma {:induction false} EscapeHasNoAngles(s: string)
    ensures forall i :: 0 <= i < |Escape(s)| ==> Escape(s)[i] != '<' && Escape(s)[i] != '>'
  {
    EscapeCharsHasNoAngles(s);
  }

  lemma {:induction false} EscapeCharsHasNoAngles(s: string)
    ensures forall i :: 0 <= i < |EscapeChars(s)| ==> EscapeChars(s)[i] != '<' && EscapeChars(s)[i] != '>'
  {
    if s != [] {
      EscapeCharsHasNoAngles(s[1..]);
    }
  }

  // ---- getInitials ---------------------------------------------------------

  /** The longest prefix of `s` without white space. */
  function TakeWord(s: string): (w: string)
    ensures |w| <= |s| && w == s[..|w|]
    ensures forall i :: 0 <= i < |w| ==> !IsSpace(w[i])
    ensures |w| < |s| ==> IsSpace(s[|w|])
  {
    if s == [] || IsSpace(s[0]) then [] else [s[0]] + TakeWord(s[1..])
  }

  /** `s.split(/\s+/)`: the texts between runs of white space, with an
      empty first word when `s` starts with white space and an empty last
      word when it ends with it. */
  function SplitWords(s: string): (ws: seq<string>)
    ensures |ws| >= 1
    decreases |s|
  {
    var w := TakeWord(s);
    if |w| == |s| then [w]
    else [w] + SplitWords(TrimStart(s[|w|..]))
  }

  /** No word of a split holds white space. */
  lemma {:induction false} SplitWordsHaveNoSpace(s: string)
    ensures forall i, j :: 0 <= i < |SplitWords(s)| && 0 <= j < |SplitWords(s)[i]| ==> !IsSpace(SplitWords(s)[i][j])
    decreases |s|
  {
    var w := TakeWord(s);
    if |w| < |s| {
      SplitWordsHaveNoSpace(TrimStart(s[|w|..]));
    }
  }

  /** A word, then white space, then text that starts with a word. */
  lemma SplitWordsAfterWord(a: string, sep: string, t: string)
    requires forall i :: 0 <= i < |a| ==> !IsSpace(a[i])
    requires sep != [] && forall i :: 0 <= i < |sep| ==> IsSpace(sep[i])
    requires t == [] || !IsSpace(t[0])
    ensures SplitWords(a + sep + t) == [a] + SplitWords(t)
  {
    var u := sep + t;
    assert a + sep + t == a + u;
    assert u[0] == sep[0];
    SplitWordsCons(a, u);
    TrimStartOf(sep, t);
  }

  /** ASCII upper-casing of one character. */
  function Upper(c: char): (r: char)
    ensures 'a' <= c <= 'z' <==> r != c
    ensures r != c ==> 'A' <= r <= 'Z' && r as int + 32 == c as int
    ensures !('a' <= r <= 'z')
  {
    if 'a' <= c <= 'z' then (c as int - 'a' as int + 'A' as int) as char else c
  }

  /** `w[0]?.toUpperCase() || ''`. */
  function Initial(w: string): (r: string)
    ensures |r| <= 1 && (r == "" <==> w == "")
    ensures r != "" ==> r[0] == Upper(w[0]) && !('a' <= r[0] <= 'z')
  {
    if w == [] then "" else [Upper(w[0])]
  }

  /** `getInitials`. */
  function Initials(name: string): (r: string)
    ensures |r| <= 2
  {
    var ws := SplitWords(name);
    Initial(ws[0]) + if |ws| > 1 then Initial(ws[1]) else ""
  }

  /** A word followed by white space (or by nothing) splits off as the
      first word. */
  lemma SplitWordsCons(w: string, rest: string)
    requires forall i :: 0 <= i < |w| ==> !IsSpace(w[i])
    requires rest == [] || IsSpace(rest[0])
    ensures SplitWords(w + rest) == if rest == [] then [w] else [w] + SplitWords(TrimStart(rest))
  {
    TakeWordOf(w, rest);
    assert (w + rest)[|w|..] == rest;
  }

  lemma {:induction false} TakeWordOf(w: string, rest: string)
    requires forall i :: 0 <= i < |w| ==> !IsSpace(w[i])
    requires rest == [] || IsSpace(rest[0])
    ensures TakeWord(w + rest) == w
  {
    if w == [] {
      assert w + rest == rest;
    } else {
      assert (w + rest)[1..] == w[1..] + rest;
      TakeWordOf(w[1..], rest);
    }
  }

  lemma {:induction false} TrimStartOf(sep: string, t: string)
    requires forall i :: 0 <= i < |sep| ==> IsSpace(sep[i])
    requires t == [] || !IsSpace(t[0])
    ensures TrimStart(sep + t) == t
  {
    if sep == [] {
      assert sep + t == t;
    } else {
      assert (sep + t)[1..] == sep[1..] + t;
      TrimStartOf(sep[1..], t);
    }
  }

  /** Two words at the start of a text are the first two words of its split. */
  lemma FirstTwoWords(a: string, sep: string, b: string, rest: string)
    requires sep != []
    requires forall i :: 0 <= i < |a| ==> !IsSpace(a[i])
    requires forall i :: 0 <= i < |b| ==> !IsSpace(b[i])
    requires forall i :: 0 <= i < |sep| ==> IsSpace(sep[i])
    requires b != []
    requires rest == [] || IsSpace(rest[0])
    ensures |SplitWords(a + sep + b + rest)| >= 2
    ensures SplitWords(a + sep + b + rest)[0] == a
    ensures SplitWords(a + sep + b + rest)[1] == b
  {
    var t := b + rest;
    assert a + sep + b + rest == a + sep + t;
    assert t[0] == b[0];
    SplitWordsAfterWord(a, sep, t);
    SplitWordsCons(b, rest);
  }

  /** Two words at the start give the upper-cased first letter of each;
      whatever follows them is ignored. */
  lemma InitialsOfTwoWords(a: string, sep: string, b: string, rest: string)
    requires a != [] && b != [] && sep != []
    requires forall i :: 0 <= i < |a| ==> !IsSpace(a[i])
    requires forall i :: 0 <= i < |b| ==> !IsSpace(b[i])
    requires forall i :: 0 <= i < |sep| ==> IsSpace(sep[i])
    requires rest == [] || IsSpace(rest[0])
    ensures Initials(a + sep + b + rest) == [Upper(a[0]), Upper(b[0])]
  {
    FirstTwoWords(a, sep, b, rest);
  }

  /** A name of one word, maybe followed by white space, gives the upper-cased
      first letter of that word; trailing white space makes an empty second
      word, which gives no letter. */
  lemma InitialsOfOneWord(a: string, rest: string)
    requires a != []
    requires forall i :: 0 <= i < |a| ==> !IsSpace(a[i])
    requires forall i :: 0 <= i < |rest| ==> IsSpace(rest[i])
    ensures Initials(a + rest) == [Upper(a[0])]
  {
    SplitWordsCons(a, rest);
    if rest == [] {
      assert a + rest == a;
    } else {
      TrimStartAllSpace(rest);
      assert SplitWords([]) == [[]];
    }
  }

  /** A name that is empty or all white space has no initials. */
  lemma InitialsAllSpace(s: string)
    requires forall i :: 0 <= i < |s| ==> IsSpace(s[i])
    ensures Initials(s) == ""
  {
    assert SplitWords([]) == [[]];
    if s != [] {
      assert TakeWord(s) == [];
      assert s[|TakeWord(s)|..] == s;
      TrimStartAllSpace(s);
    }
  }

  /** Leading white space yields an empty first word, which gives no letter
      but still counts as one of the two: only the next word's letter shows. */
  lemma InitialsAfterLeadingSpace(sep: string, a: string, rest: string)
    requires a != [] && sep != []
    requires forall i :: 0 <= i < |a| ==> !IsSpace(a[i])
    requires forall i :: 0 <= i < |sep| ==> IsSpace(sep[i])
    requires rest == [] || IsSpace(rest[0])
    ensures Initials(sep + a + rest) == [Upper(a[0])]
  {
    var t := a + rest;
    assert sep + a + rest == [] + sep + t;
    SplitWordsAfterWord([], sep, t);
    SplitWordsCons(a, rest);
  }

  // ---- renderSessions ------------------------------------------------------

  datatype Badge = ExpiredBadge | ActiveBadge | NoBadge

  /** The badge of a row: the expired badge wins over the active one. */
  function BadgeOf(s: Session, activeSessionId: Option<string>): (b: Badge)
    ensures b == ExpiredBadge <==> s.expired
    ensures b == ActiveBadge <==> !s.expired && activeSessionId == Some(s.id)
  {
    if s.expired then ExpiredBadge
    else if activeSessionId == Some(s.id) then ActiveBadge
    else NoBadge
  }

  /** The avatar background: grey for an expired record. */
  function AvatarColor(s: Session): (c: string)
    ensures s.expired ==> c == "#555"
    ensures !s.expired ==> c == s.color
  {
    if s.expired then "#555" else s.color
  }

  /** The email line of a row: the escaped email, shown only when the record
      has one. What is shown decodes back to the email and cannot open a tag. */
  function EmailLine(s: Session): (line: Option<string>)
    ensures line.None? <==> s.email == ""
    ensures line.Some? ==> Unescape(line.value) == s.email
    ensures line.Some? ==> forall i :: 0 <= i < |line.value| ==> line.value[i] != '<' && line.value[i] != '>'
  {
    if s.email == "" then None
    else
      EscapeRoundTrip(s.email);
      EscapeHasNoAngles(s.email);
      Some(Escape(s.email))
  }

  datatype ClickAction = Ignore | ShowExpired | SwitchTo(id: string)

  /** What a click on a row does; `onActionButton` is a click on the row's
      delete button, which has its own handler. */
  function OnRowClick(s: Session, onActionButton: bool): (a: ClickAction)
    ensures a.SwitchTo? <==> !onActionButton && !s.expired
    ensures a.SwitchTo? ==> a.id == s.id
    ensures a == ShowExpired <==> !onActionButton && s.expired
  {
    if onActionButton then Ignore
    else if s.expired then ShowExpired
    else SwitchTo(s.id)
  }
}
