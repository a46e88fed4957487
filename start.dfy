/**
 * Reading the device id from a `/start` command: the deep-link payload, or else
 * the second word of the message, accepted only in the form TYPE_NN
 * (upper-case ASCII letters, an underscore, two ASCII digits).
 */
module StartCommand {
  import opened Wrappers
  import opened Text

  predicate IsAsciiUpper(c: char) { 'A' <= c <= 'Z' }

  /** `\d` of a JavaScript regular expression without the `u` flag: an ASCII digit. */
  predicate IsAsciiDigit(c: char) { '0' <= c <= '9' }

  predicate AllUpper(s: string) {
    forall i :: 0 <= i < |s| ==> IsAsciiUpper(s[i])
  }

  /** The regular expression `^[A-Z]+_\d{2}$`, read position by position. */
  predicate IsDeviceIdFormat(s: string) {
    && |s| >= 4
    && AllUpper(s[..|s| - 3])
    && s[|s| - 3] == '_'
    && IsAsciiDigit(s[|s| - 2])
    && IsAsciiDigit(s[|s| - 1])
  }

  /** Every concatenation letters + "_" + digit + digit that the pattern describes is accepted. */
  lemma DeviceIdFormatFromParts(letters: string, d1: char, d2: char)
    requires |letters| >= 1 && AllUpper(letters)
    requires IsAsciiDigit(d1) && IsAsciiDigit(d2)
    ensures IsDeviceIdFormat(letters + ['_', d1, d2])
  {
    var s := letters + ['_', d1, d2];
    assert s[..|s| - 3] == letters;
  }

  /** And every accepted string is such a concatenation, with no other characters. */
  lemma DeviceIdFormatParts(s: string)
    requires IsDeviceIdFormat(s)
    ensures s == s[..|s| - 3] + ['_', s[|s| - 2], s[|s| - 1]]
    ensures |s[..|s| - 3]| >= 1 && AllUpper(s[..|s| - 3])
    ensures forall i :: 0 <= i < |s| ==> !IsJsSpace(s[i]) && s[i] != ' '
  {
    forall i | 0 <= i < |s| ensures !IsJsSpace(s[i]) {
      if i < |s| - 3 {
        assert IsAsciiUpper(s[..|s| - 3][i]);
      }
    }
  }

  /** The payload Telegram passes for a `t.me/<bot>?start=<payload>` link, trimmed; "" when absent. */
  function PayloadOf(startPayload: Option<string>): (p: string)
    ensures startPayload.Some? ==> p == Trim(startPayload.value)
    ensures startPayload.None? ==> p == ""
    ensures IsTrimmed(p)
    ensures p == "" <==> startPayload.None? || AllSpace(startPayload.value)
  {
    if startPayload.Some? then TrimEmpty(startPayload.value); Trim(startPayload.value) else ""
  }

  /**
   * `extractDeviceIdFromStart`: a non-blank start payload takes precedence over the
   * second word of the message text; the candidate is trimmed and returned only if
   * it has the TYPE_NN form. An absent text or payload is `None`.
   */
  function ExtractDeviceIdFromStart(messageText: Option<string>, startPayload: Option<string>): (r: Option<string>)
    ensures r.Some? ==> IsDeviceIdFormat(r.value) && r.value != ""
  {
    var text := if messageText.Some? then messageText.value else "";
    var parts := Words(text);
    var fromPayload := PayloadOf(startPayload);
    var payload := if fromPayload != "" then fromPayload else if |parts| >= 2 then parts[1] else "";
    var deviceId := Trim(payload);
    if deviceId == "" then None
    else if !IsDeviceIdFormat(deviceId) then None
    else Some(deviceId)
  }

  /** A non-blank payload decides alone: the message text is not consulted. */
  lemma PayloadTakesPrecedence(messageText: Option<string>, startPayload: Option<string>)
    requires PayloadOf(startPayload) != ""
    ensures var p := PayloadOf(startPayload);
      ExtractDeviceIdFromStart(messageText, startPayload) == (if IsDeviceIdFormat(p) then Some(p) else None)
  {
    TrimIdempotent(startPayload.value);
  }

  /** Without a usable payload the second word decides, and a message of fewer than two words gives nothing. */
  lemma SecondWordWhenNoPayload(messageText: Option<string>, startPayload: Option<string>)
    requires PayloadOf(startPayload) == ""
    ensures var words := Words(if messageText.Some? then messageText.value else "");
      ExtractDeviceIdFromStart(messageText, startPayload) ==
        (if |words| >= 2 && IsDeviceIdFormat(words[1]) then Some(words[1]) else None)
  {
    var words := Words(if messageText.Some? then messageText.value else "");
    if |words| >= 2 {
      TrimOfTrimmed(words[1]);
    }
  }

  /** Whatever the input, the identifier returned is exactly what the pattern accepts. */
  lemma ExtractedIdIsPattern(messageText: Option<string>, startPayload: Option<string>)
    ensures var r := ExtractDeviceIdFromStart(messageText, startPayload);
      var n := if r.Some? then |r.value| else 0;
      r.Some? ==>
        && n >= 4
        && r.value == r.value[..n - 3] + ['_', r.value[n - 2], r.value[n - 1]]
        && AllUpper(r.value[..n - 3])
        && IsAsciiDigit(r.value[n - 2]) && IsAsciiDigit(r.value[n - 1])
  {
    var r := ExtractDeviceIdFromStart(messageText, startPayload);
    if r.Some? {
      DeviceIdFormatParts(r.value);
    }
  }

  /** Typing `/start <id>` by hand, for instance `/start BANYA_01`, binds that device. */
  lemma TypedStartBindsDevice(d: string)
    requires IsDeviceIdFormat(d)
    ensures ExtractDeviceIdFromStart(Some("/start " + d), None) == Some(d)
  {
    DeviceIdFormatParts(d);
    var words := ["/start", d];
    assert JoinWithSpace(words) == "/start " + d;
    SplitJoin(words);
    TrimOfTrimmed("/start");
    TrimOfTrimmed(d);
    assert NonEmptyTrimmed(words[1..]) == [d];
    assert Words("/start " + d) == words;
    SecondWordWhenNoPayload(Some("/start " + d), None);
  }

  /** A payload that starts with a lower-case letter, such as `banya_01`, is refused. */
  lemma LowerCasePayloadRefused(p: string)
    requires p != [] && 'a' <= p[0] <= 'z' && IsTrimmed(p)
    ensures ExtractDeviceIdFromStart(None, Some(p)) == None
  {
    TrimOfTrimmed(p);
    if |p| >= 4 {
      assert !IsAsciiUpper(p[..|p| - 3][0]);
    }
    PayloadTakesPrecedence(None, Some(p));
  }
}
