/**
 The host/join screen's decisions: generating a session id, refusing to
 host without one, and validating what a joining user typed before the
 join is requested. Widgets, dialogs and the clipboard are left out; the
 random bytes behind a new id are an input.
 */
module HostJoin {
  import opened Basics
  import Hex

  // ---------------------------------------------------------------------------
  // Python's str.strip() and str.upper()
  // ---------------------------------------------------------------------------

  /** The characters for which Python's `str.isspace()` holds. */
  predicate IsSpace(c: char) {
    var n := c as int;
    || n == 0x20 || 0x09 <= n <= 0x0D || 0x1C <= n <= 0x1F || n == 0x85 || n == 0xA0
    || n == 0x1680 || 0x2000 <= n <= 0x200A || n == 0x2028 || n == 0x2029
    || n == 0x202F || n == 0x205F || n == 0x3000
  }

  /** `s.lstrip()`: drop leading whitespace. */
  function StripStart(s: string): (r: string)
    ensures |r| <= |s| && r == s[|s| - |r|..]
    ensures forall i :: 0 <= i < |s| - |r| ==> IsSpace(s[i])
    ensures |r| > 0 ==> !IsSpace(r[0])
    decreases |s|
  {
    if |s| > 0 && IsSpace(s[0]) then StripStart(s[1..]) else s
  }

  /** `s.rstrip()`: drop trailing whitespace. */
  function StripEnd(s: string): (r: string)
    ensures |r| <= |s| && r == s[..|r|]
    ensures forall i :: |r| <= i < |s| ==> IsSpace(s[i])
    ensures |r| > 0 ==> !IsSpace(r[|r| - 1])
    decreases |s|
  {
    if |s| > 0 && IsSpace(s[|s| - 1]) then StripEnd(s[..|s| - 1]) else s
  }

  /** `s.strip()`. */
  function Strip(s: string): string {
    StripEnd(StripStart(s))
  }

  /** Whitespace around a word whose ends are not whitespace is exactly what `strip` removes. */
  lemma {:induction false} StripPadded(before: string, word: string, after: string)
    requires forall i :: 0 <= i < |before| ==> IsSpace(before[i])
    requires forall i :: 0 <= i < |after| ==> IsSpace(after[i])
    requires |word| > 0 && !IsSpace(word[0]) && !IsSpace(word[|word| - 1])
    ensures Strip(before + word + after) == word
  {
    var rest := word + after;
    assert rest[0] == word[0];
    StripStartPadded(before, rest);
    StripEndPadded(word, after);
    ConcatAssoc(before, word, after);
  }

  lemma {:induction false} StripStartPadded(before: string, rest: string)
    requires forall i :: 0 <= i < |before| ==> IsSpace(before[i])
    requires |rest| > 0 && !IsSpace(rest[0])
    ensures StripStart(before + rest) == rest
    decreases |before|
  {
    if |before| > 0 {
      assert (before + rest)[1..] == before[1..] + rest;
      StripStartPadded(before[1..], rest);
    }
  }

  lemma {:induction false} StripEndPadded(word: string, after: string)
    requires forall i :: 0 <= i < |after| ==> IsSpace(after[i])
    requires |word| > 0 && !IsSpace(word[|word| - 1])
    ensures StripEnd(word + after) == word
    decreases |after|
  {
    if |after| > 0 {
      var last := |after| - 1;
      assert (word + after)[..|word + after| - 1] == word + after[..last];
      StripEndPadded(word, after[..last]);
    } else {
      assert word + after == word;
    }
  }

  /** `c.upper()` for the ASCII letters; every other character is kept (see README). */
  function UpperChar(c: char): char {
    if 'a' <= c <= 'z' then (c as int - 'a' as int + 'A' as int) as char else c
  }

  /** `s.upper()`. */
  function Upper(s: string): (r: string)
    ensures |r| == |s| && forall i :: 0 <= i < |s| ==> r[i] == UpperChar(s[i])
  {
    seq(|s|, i requires 0 <= i < |s| => UpperChar(s[i]))
  }

  // ---------------------------------------------------------------------------
  // Session ids
  // ---------------------------------------------------------------------------

  const SessionIdLength: nat := 8

  /** A character of `'0123456789ABCDEF'`. */
  predicate IsUpperHexDigit(c: char) {
    '0' <= c <= '9' || 'A' <= c <= 'F'
  }

  /** What the join form accepts: 8 characters, each an upper-case hex digit. */
  predicate ValidSessionId(s: string) {
    |s| == SessionIdLength && forall i :: 0 <= i < |s| ==> IsUpperHexDigit(s[i])
  }

  /** `secrets.token_hex(4).upper()` for the four random bytes `random`. */
  function GenerateSessionId(random: Bytes): (id: string)
    requires |random| == 4
    ensures ValidSessionId(id)
    ensures Hex.FromHex(id) == Some(random)
  {
    var lower := Hex.ToHex(random);
    LowerHexUppercased(random);
    Hex.FromHexToHex(random);
    UpperHexReads(lower);
    Upper(lower)
  }

  /** Upper-casing the digits of `bytes.hex()` gives upper-case hex digits only. */
  lemma {:induction false} LowerHexUppercased(bs: Bytes)
    ensures forall i :: 0 <= i < 2 * |bs| ==> IsUpperHexDigit(UpperChar(Hex.ToHex(bs)[i]))
    decreases |bs|
  {
    if |bs| > 0 {
      LowerHexUppercased(bs[1..]);
      var s := Hex.ToHex(bs);
      var rest := Hex.ToHex(bs[1..]);
      assert s == [Hex.Digit(bs[0] / 16), Hex.Digit(bs[0] % 16)] + rest;
      forall v: nat | v < 16 ensures IsUpperHexDigit(UpperChar(Hex.Digit(v))) {
        DigitUppercased(v);
      }
      forall i | 2 <= i < 2 * |bs| ensures IsUpperHexDigit(UpperChar(s[i])) {
        assert s[i] == rest[i - 2];
      }
    }
  }

  lemma DigitUppercased(v: nat)
    requires v < 16
    ensures IsUpperHexDigit(UpperChar(Hex.Digit(v)))
  {
    var digits := "0123456789abcdef";
    assert Hex.Digit(v) == digits[v];
    if v < 10 {
      assert '0' <= digits[v] <= '9' by {
        assert digits[..10] == "0123456789";
      }
    } else {
      assert 'a' <= digits[v] <= 'f' by {
        assert digits[10..] == "abcdef";
      }
    }
  }

  /** `bytes.fromhex` reads upper-case digits as it reads lower-case ones. */
  lemma {:induction false} UpperHexReads(s: string)
    ensures Hex.FromHex(Upper(s)) == Hex.FromHex(s)
    decreases |s|
  {
    if |s| >= 2 {
      UpperHexReads(s[2..]);
      assert Upper(s)[2..] == Upper(s[2..]);
      DigitValueUpper(s[0]);
      DigitValueUpper(s[1]);
    }
  }

  lemma DigitValueUpper(c: char)
    ensures Hex.DigitValue(UpperChar(c)) == Hex.DigitValue(c)
  {
  }

  // ---------------------------------------------------------------------------
  // Hosting and joining
  // ---------------------------------------------------------------------------

  /** `start_hosting`: refused until a session id has been generated; otherwise `host_session(id, username)`. */
  function StartHosting(sessionId: Option<string>, username: string): (r: Option<(string, string)>)
    ensures r.Some? <==> sessionId.Some? && sessionId.value != ""
    ensures r.Some? ==> r.value == (sessionId.value, username)
  {
    match sessionId
    case Some(id) => if id == "" then None else Some((id, username))
    case None => None
  }

  /** The result of pressing "Join": the first check that fails, or the `join_session` request. */
  datatype JoinOutcome =
    | MissingSessionId
    | WrongLength(length: nat)
    | NotHex
    | MissingAddress
    | Join(sessionId: string, serverAddress: string, username: string)

  /**
   `start_joining` with the two fields' text: the id is stripped and
   upper-cased, the address stripped; then, in order, an empty id, an id
   whose length is not 8, an id with a character outside 0-9A-F, and an
   empty address are refused.
   */
  function StartJoining(idText: string, addressText: string, username: string): (r: JoinOutcome)
    ensures var id := Upper(Strip(idText)); var address := Strip(addressText);
            && (r.Join? <==> ValidSessionId(id) && address != "")
            && (r.Join? ==> r == Join(id, address, username))
            && (id == "" ==> r == MissingSessionId)
            && (id != "" && |id| != SessionIdLength ==> r == WrongLength(|id|))
            && (r == NotHex <==> |id| == SessionIdLength && !ValidSessionId(id))
            && (r == MissingAddress <==> ValidSessionId(id) && address == "")
  {
    var id := Upper(Strip(idText));
    var address := Strip(addressText);
    if id == "" then MissingSessionId
    else if |id| != SessionIdLength then WrongLength(|id|)
    else if !(forall i :: 0 <= i < |id| ==> IsUpperHexDigit(id[i])) then NotHex
    else if address == "" then MissingAddress
    else Join(id, address, username)
  }

  /**
   A generated id survives the trip from host to joiner: typed back in
   lower case (as `bytes.hex()` prints it) and surrounded by whitespace, it
   is accepted and the join request carries exactly the id the host
   announced, which the server compares verbatim.
   */
  lemma GeneratedIdJoins(random: Bytes, before: string, after: string, address: string, host: string, guest: string)
    requires |random| == 4
    requires forall i :: 0 <= i < |before| ==> IsSpace(before[i])
    requires forall i :: 0 <= i < |after| ==> IsSpace(after[i])
    requires |address| > 0 && !IsSpace(address[0]) && !IsSpace(address[|address| - 1])
    ensures var id := GenerateSessionId(random);
            && StartHosting(Some(id), host) == Some((id, host))
            && StartJoining(before + Hex.ToHex(random) + after, address, guest) == Join(id, address, guest)
  {
    var lower := Hex.ToHex(random);
    HexNotSpace(random);
    StripPadded(before, lower, after);
    StripPadded([], address, []);
    assert [] + address + [] == address;
  }

  /** No digit of `bytes.hex()` is whitespace. */
  lemma HexNotSpace(bs: Bytes)
    requires |bs| > 0
    ensures var s := Hex.ToHex(bs); !IsSpace(s[0]) && !IsSpace(s[|s| - 1])
  {
    var s := Hex.ToHex(bs);
    LowerHexUppercased(bs);
    assert IsUpperHexDigit(UpperChar(s[0]));
    assert IsUpperHexDigit(UpperChar(s[|s| - 1]));
  }

  /** An id of lower-case hex digits is accepted after upper-casing, so case never makes a join fail. */
  lemma CaseIsIgnored(idText: string, address: string, username: string)
    requires ValidSessionId(Upper(Strip(idText))) && Strip(address) != ""
    ensures StartJoining(idText, address, username).Join?
    ensures StartJoining(Upper(idText), address, username) == StartJoining(idText, address, username)
  {
    UpperStrip(idText);
    UpperIdempotent(Strip(idText));
  }

  /** Upper-casing keeps whitespace where it is, so it commutes with `strip`. */
  lemma UpperStrip(s: string)
    ensures Strip(Upper(s)) == Upper(Strip(s))
  {
    UpperStripStart(s);
    UpperStripEnd(StripStart(s));
  }

  lemma {:induction false} UpperStripStart(s: string)
    ensures StripStart(Upper(s)) == Upper(StripStart(s))
    decreases |s|
  {
    if |s| > 0 {
      assert IsSpace(UpperChar(s[0])) == IsSpace(s[0]);
      assert Upper(s)[1..] == Upper(s[1..]);
      UpperStripStart(s[1..]);
    }
  }

  lemma {:induction false} UpperStripEnd(s: string)
    ensures StripEnd(Upper(s)) == Upper(StripEnd(s))
    decreases |s|
  {
    if |s| > 0 {
      assert IsSpace(UpperChar(s[|s| - 1])) == IsSpace(s[|s| - 1]);
      assert Upper(s)[..|s| - 1] == Upper(s[..|s| - 1]);
      UpperStripEnd(s[..|s| - 1]);
    }
  }

  lemma UpperIdempotent(s: string)
    ensures Upper(Upper(s)) == Upper(s)
  {
  }
}
