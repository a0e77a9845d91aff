/** Signing and parsing of Telegram callback data. The keyed hash is any function of
    secret and body whose hexadecimal text has no dot (HMAC, section 2 of RFC 2104). */
module Callbacks {
  import opened Options

  type Mac = (string, string) -> string

  const ACK := "np:ack:"
  const RESOLVE := "np:resolve:"
  const SNOOZE := "np:snooze:"

  ghost predicate Hex(mac: Mac) {
    forall secret, body :: NoChar(mac(secret, body), '.')
  }

  predicate NoChar(s: string, c: char) {
    forall i :: 0 <= i < |s| ==> s[i] != c
  }

  /** The position of the last `c` before position `n`. */
  function LastIndexBefore(s: string, c: char, n: nat): (r: Option<nat>)
    requires n <= |s|
    ensures r.Some? ==> r.value < n && s[r.value] == c && forall i :: r.value < i < n ==> s[i] != c
    ensures r == None ==> forall i :: 0 <= i < n ==> s[i] != c
  {
    if n == 0 then None else if s[n - 1] == c then Some(n - 1) else LastIndexBefore(s, c, n - 1)
  }

  function LastIndex(s: string, c: char): Option<nat> {
    LastIndexBefore(s, c, |s|)
  }

  datatype Split = Split(body: string, sig: string, hasSig: bool)

  function SplitSig(data: string): Split {
    match LastIndex(data, '.')
    case None => Split(data, "", false)
    case Some(i) => Split(data[..i], data[i + 1..], true)
  }

  function ParseAction(body: string): string {
    if ACK <= body then "ack"
    else if RESOLVE <= body then "resolve"
    else if SNOOZE <= body then "snooze"
    else ""
  }

  function Signed(mac: Mac, secret: string, body: string): string {
    if secret == "" then body else body + "." + mac(secret, body)
  }

  function SignCallbackData(mac: Mac, secret: string, prefix: string, incidentId: string): string {
    Signed(mac, secret, prefix + incidentId)
  }

  function SnoozeBody(incidentId: string, dur: string): string {
    SNOOZE + incidentId + ":" + dur
  }

  function SignSnoozeCallback(mac: Mac, secret: string, incidentId: string, dur: string): string {
    Signed(mac, secret, SnoozeBody(incidentId, dur))
  }

  function SnoozeSeconds(dur: string): int {
    if dur == "1h" then 3600 else if dur == "4h" then 4 * 3600 else if dur == "8h" then 8 * 3600 else 0
  }

  predicate AllowedDuration(dur: string) {
    dur == "1h" || dur == "4h" || dur == "8h"
  }

  /** The unsigned form is accepted only without a secret, the signed one only with it. */
  predicate SignatureOk(mac: Mac, secret: string, s: Split) {
    if !s.hasSig then secret == "" else secret != "" && s.sig == mac(secret, s.body)
  }

  datatype Callback = Callback(action: string, incidentId: string)

  /** The action and the text after the last colon. */
  function ParseCallback(body: string): Option<Callback> {
    var action := ParseAction(body);
    if body == "" || action == "" then None
    else
      match LastIndex(body, ':')
      case None => None
      case Some(i) => if i == |body| - 1 then None else Some(Callback(action, body[i + 1..]))
  }

  /** None when the data is rejected. */
  function VerifyCallbackData(mac: Mac, secret: string, data: string): Option<Callback> {
    var s := SplitSig(data);
    var parsed := ParseCallback(s.body);
    if parsed == None || !SignatureOk(mac, secret, s) then None else parsed
  }

  datatype SnoozeRequest = SnoozeRequest(incidentId: string, dur: string)

  function ParseSnooze(body: string): Option<SnoozeRequest> {
    if !(SNOOZE <= body) then None
    else
      var rest := body[|SNOOZE|..];
      match LastIndex(rest, ':')
      case None => None
      case Some(i) =>
        if i == |rest| - 1 || i == 0 || !AllowedDuration(rest[i + 1..]) then None
        else Some(SnoozeRequest(rest[..i], rest[i + 1..]))
  }

  function VerifySnoozeCallback(mac: Mac, secret: string, data: string): Option<SnoozeRequest> {
    var s := SplitSig(data);
    var parsed := ParseSnooze(s.body);
    if parsed == None || !SignatureOk(mac, secret, s) then None else parsed
  }

  // ----- Splitting undoes joining

  lemma LastIndexOfJoin(a: string, c: char, b: string)
    requires NoChar(b, c)
    ensures LastIndex(a + [c] + b, c) == Some(|a|)
  {
    var s := a + [c] + b;
    assert s[|a|] == c;
    forall i | |a| < i < |s|
      ensures s[i] != c
    {
      assert s[i] == b[i - |a| - 1];
    }
  }

  /** What was signed splits back into body and signature; what was not signed splits off
      nothing, unless its body has a dot. */
  lemma SplitUndoesSigned(mac: Mac, secret: string, body: string)
    requires Hex(mac)
    ensures secret != "" ==> SplitSig(Signed(mac, secret, body)) == Split(body, mac(secret, body), true)
    ensures secret == "" && NoChar(body, '.') ==> SplitSig(Signed(mac, secret, body)) == Split(body, "", false)
    ensures secret == "" && !NoChar(body, '.') ==> SplitSig(Signed(mac, secret, body)).hasSig
  {
    if secret != "" {
      var m := mac(secret, body);
      LastIndexOfJoin(body, '.', m);
      var s := body + "." + m;
      assert s[..|body|] == body && s[|body| + 1..] == m;
    }
  }

  /** Verifying what was signed parses the signed body, except that without a secret a body
      with a dot is rejected. */
  lemma VerifySigned(mac: Mac, secret: string, body: string)
    requires Hex(mac)
    ensures secret != "" || NoChar(body, '.') ==>
              VerifyCallbackData(mac, secret, Signed(mac, secret, body)) == ParseCallback(body) &&
              VerifySnoozeCallback(mac, secret, Signed(mac, secret, body)) == ParseSnooze(body)
    ensures secret == "" && !NoChar(body, '.') ==>
              VerifyCallbackData(mac, secret, Signed(mac, secret, body)) == None &&
              VerifySnoozeCallback(mac, secret, Signed(mac, secret, body)) == None
  {
    SplitUndoesSigned(mac, secret, body);
  }

  predicate IsActionPrefix(prefix: string, action: string) {
    prefix == "np:" + action + ":" && action in ["ack", "resolve"]
  }

  lemma PrefixParses(prefix: string, action: string, id: string)
    requires IsActionPrefix(prefix, action)
    ensures ParseAction(prefix + id) == action
  {
    var body := prefix + id;
    assert body[..|prefix|] == prefix;
    assert prefix <= body;
    if prefix == RESOLVE {
      assert body[3] == 'r' && ACK[3] == 'a';
    }
  }

  lemma NoCharJoin(a: string, b: string, c: char)
    ensures NoChar(a + b, c) <==> NoChar(a, c) && NoChar(b, c)
  {
    var s := a + b;
    if NoChar(s, c) {
      forall i | 0 <= i < |a|
        ensures a[i] != c
      {
        assert s[i] == a[i];
      }
      forall i | 0 <= i < |b|
        ensures b[i] != c
      {
        assert s[|a| + i] == b[i];
      }
    }
  }

  lemma ParsesIff(prefix: string, action: string, id: string)
    requires IsActionPrefix(prefix, action)
    ensures ParseCallback(prefix + id) == Some(Callback(action, id)) <==> id != "" && NoChar(id, ':')
  {
    var body := prefix + id;
    PrefixParses(prefix, action, id);
    var p := |prefix| - 1;
    assert body[p] == prefix[p] == ':';
    if NoChar(id, ':') {
      assert body == prefix[..p] + ":" + id;
      LastIndexOfJoin(prefix[..p], ':', id);
      assert body[p + 1..] == id;
    } else {
      var k :| 0 <= k < |id| && id[k] == ':';
      assert body[|prefix| + k] == ':';
      var i := LastIndex(body, ':').value;
      assert |body[i + 1..]| < |id|;
    }
  }

  lemma PrefixHasNoDot(prefix: string, action: string)
    requires IsActionPrefix(prefix, action)
    ensures NoChar(prefix, '.')
  {
  }

  /** Verify undoes sign for an acknowledge or resolve button exactly for a non-empty id
      without a colon (and, unsigned, without a dot). */
  lemma ActionRoundTripIff(mac: Mac, secret: string, prefix: string, action: string, id: string)
    requires Hex(mac) && IsActionPrefix(prefix, action)
    ensures VerifyCallbackData(mac, secret, SignCallbackData(mac, secret, prefix, id)) == Some(Callback(action, id))
            <==> id != "" && NoChar(id, ':') && (secret != "" || NoChar(id, '.'))
  {
    VerifySigned(mac, secret, prefix + id);
    PrefixHasNoDot(prefix, action);
    NoCharJoin(prefix, id, '.');
    ParsesIff(prefix, action, id);
  }

  lemma SnoozeBodySplits(id: string, dur: string)
    requires NoChar(dur, ':')
    ensures SNOOZE <= SnoozeBody(id, dur) && SnoozeBody(id, dur)[|SNOOZE|..] == id + ":" + dur
    ensures LastIndex(id + ":" + dur, ':') == Some(|id|)
    ensures (id + ":" + dur)[..|id|] == id && (id + ":" + dur)[|id| + 1..] == dur
  {
    LastIndexOfJoin(id, ':', dur);
    assert SnoozeBody(id, dur) == SNOOZE + (id + ":" + dur);
  }

  /** A duration is so many hours. */
  lemma SnoozeIsHours(dur: string)
    ensures dur in ["1h", "4h", "8h"] ==> SnoozeSeconds(dur) == (dur[0] as int - '0' as int) * 3600
    ensures dur !in ["1h", "4h", "8h"] ==> SnoozeSeconds(dur) == 0
  {
  }

  lemma AllowedIsPlain(dur: string)
    requires AllowedDuration(dur)
    ensures NoChar(dur, ':') && NoChar(dur, '.') && dur != "" && SnoozeSeconds(dur) in {3600, 14400, 28800}
  {
  }

  lemma SnoozeParsesIff(id: string, dur: string)
    ensures ParseSnooze(SnoozeBody(id, dur)) == Some(SnoozeRequest(id, dur)) <==> AllowedDuration(dur) && id != ""
  {
    if AllowedDuration(dur) {
      AllowedIsPlain(dur);
      SnoozeBodySplits(id, dur);
    }
  }

  lemma SnoozeBodyDots(id: string, dur: string)
    requires NoChar(dur, '.')
    ensures NoChar(SnoozeBody(id, dur), '.') <==> NoChar(id, '.')
  {
    NoCharJoin(SNOOZE, id, '.');
    NoCharJoin(SNOOZE + id, ":", '.');
    NoCharJoin(SNOOZE + id + ":", dur, '.');
  }

  /** Verify undoes sign for a snooze button exactly for an allowed duration and a
      non-empty id (unsigned: without a dot); colons in the id do no harm. */
  lemma SnoozeRoundTripIff(mac: Mac, secret: string, id: string, dur: string)
    requires Hex(mac)
    ensures VerifySnoozeCallback(mac, secret, SignSnoozeCallback(mac, secret, id, dur)) == Some(SnoozeRequest(id, dur))
            <==> dur in ["1h", "4h", "8h"] && id != "" && (secret != "" || NoChar(id, '.'))
  {
    VerifySigned(mac, secret, SnoozeBody(id, dur));
    SnoozeParsesIff(id, dur);
    if AllowedDuration(dur) {
      AllowedIsPlain(dur);
      SnoozeBodyDots(id, dur);
    }
  }

  /** The generic verifier recognises a snooze button as such; the id it parses is the
      duration, which is why the snooze verifier is asked next. */
  lemma SnoozeClassified(mac: Mac, secret: string, id: string, dur: string)
    requires Hex(mac) && AllowedDuration(dur) && (secret != "" || NoChar(id, '.'))
    ensures VerifyCallbackData(mac, secret, SignSnoozeCallback(mac, secret, id, dur)) == Some(Callback("snooze", dur))
  {
    VerifySigned(mac, secret, SnoozeBody(id, dur));
    AllowedIsPlain(dur);
    SnoozeBodyDots(id, dur);
    SnoozeParsesGenerically(id, dur);
  }

  lemma SnoozeParsesGenerically(id: string, dur: string)
    requires NoChar(dur, ':') && dur != ""
    ensures ParseCallback(SnoozeBody(id, dur)) == Some(Callback("snooze", dur))
  {
    var body := SnoozeBody(id, dur);
    assert body[3] == 's' && ACK[3] == 'a' && RESOLVE[3] == 'r';
    assert body[..|SNOOZE|] == SNOOZE;
    LastIndexOfJoin(SNOOZE + id, ':', dur);
    assert body[|SNOOZE + id| + 1..] == dur;
  }

  /** Under a secret exactly the signed data are accepted, and mean what was signed. */
  lemma AcceptedIffSigned(mac: Mac, secret: string, data: string, c: Callback, r: SnoozeRequest)
    requires Hex(mac) && secret != ""
    ensures VerifyCallbackData(mac, secret, data) == Some(c) <==>
            exists body :: data == body + "." + mac(secret, body) && ParseCallback(body) == Some(c)
    ensures VerifySnoozeCallback(mac, secret, data) == Some(r) <==>
            data == "np:snooze:" + r.incidentId + ":" + r.dur + "." + mac(secret, "np:snooze:" + r.incidentId + ":" + r.dur) &&
            r.dur in ["1h", "4h", "8h"] && r.incidentId != ""
  {
    var s := SplitSig(data);
    if s.hasSig && SignatureOk(mac, secret, s) {
      assert data == s.body + "." + s.sig;
      assert data == Signed(mac, secret, s.body);
      VerifySigned(mac, secret, s.body);
    }
    forall body | data == Signed(mac, secret, body)
      ensures VerifyCallbackData(mac, secret, data) == ParseCallback(body)
    {
      VerifySigned(mac, secret, body);
    }
    if VerifySnoozeCallback(mac, secret, data) == Some(r) {
      SnoozeParsesBack(s.body, r);
    } else if data == SignSnoozeCallback(mac, secret, r.incidentId, r.dur) {
      SnoozeRoundTripIff(mac, secret, r.incidentId, r.dur);
    }
  }

  lemma SnoozeParsesBack(body: string, r: SnoozeRequest)
    requires ParseSnooze(body) == Some(r)
    ensures body == SnoozeBody(r.incidentId, r.dur) && AllowedDuration(r.dur) && r.incidentId != ""
  {
    var rest := body[|SNOOZE|..];
    assert rest == r.incidentId + ":" + r.dur;
    assert body == SNOOZE + rest;
  }

  /** Different buttons never carry the same data: under one secret, the data of an action
      button determines action and id, that of a snooze button id and duration, and no
      action button carries the data of a snooze button. */
  lemma ButtonsDiffer(mac: Mac, secret: string, prefix: string, action: string, id: string,
      prefix': string, action': string, id': string, dur: string, dur': string)
    requires Hex(mac) && IsActionPrefix(prefix, action) && IsActionPrefix(prefix', action')
    requires AllowedDuration(dur) && AllowedDuration(dur')
    ensures SignCallbackData(mac, secret, prefix, id) == SignCallbackData(mac, secret, prefix', id') ==> prefix == prefix' && id == id'
    ensures SignSnoozeCallback(mac, secret, id, dur) == SignSnoozeCallback(mac, secret, id', dur') ==> id == id' && dur == dur'
    ensures SignCallbackData(mac, secret, prefix, id) != SignSnoozeCallback(mac, secret, id', dur')
  {
    AllowedIsPlain(dur);
    AllowedIsPlain(dur');
    if SignCallbackData(mac, secret, prefix, id) == SignCallbackData(mac, secret, prefix', id') {
      SignedIsInjective(mac, secret, prefix + id, prefix' + id');
      PrefixParses(prefix, action, id);
      PrefixParses(prefix', action', id');
      assert (prefix + id)[|prefix|..] == id && (prefix' + id')[|prefix'|..] == id';
    }
    if SignSnoozeCallback(mac, secret, id, dur) == SignSnoozeCallback(mac, secret, id', dur') {
      SignedIsInjective(mac, secret, SnoozeBody(id, dur), SnoozeBody(id', dur'));
      SnoozeBodySplits(id, dur);
      SnoozeBodySplits(id', dur');
    }
    BodiesDiffer(prefix, action, id, id', dur');
    SignedIsInjective(mac, secret, prefix + id, SnoozeBody(id', dur'));
  }

  lemma BodiesDiffer(prefix: string, action: string, id: string, id': string, dur: string)
    requires IsActionPrefix(prefix, action)
    ensures prefix + id != SnoozeBody(id', dur)
  {
    assert (prefix + id)[3] == prefix[3] != 's';
    assert SnoozeBody(id', dur)[3] == 's';
  }

  lemma SignedIsInjective(mac: Mac, secret: string, a: string, b: string)
    requires Hex(mac)
    ensures Signed(mac, secret, a) == Signed(mac, secret, b) ==> a == b
  {
    SplitUndoesSigned(mac, secret, a);
    SplitUndoesSigned(mac, secret, b);
  }
}
