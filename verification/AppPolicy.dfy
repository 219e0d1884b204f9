/**
 Signed application-control policies and their verification (crates/sda-app-control/src/policy.rs:20-98,
 crates/sda-pal/src/app_control.rs:44-219) and what they decide on a subject
 (crates/sda-app-control/src/monitor.rs:65-104). Signature checking with payload decoding, and rule hashing, are
 parameters.
 */
module AppPolicy {
  import opened Wrappers
  import TextLines

  type U64 = n: int | 0 <= n < 0x1_0000_0000_0000_0000

  datatype Mode = Monitor | Enforce | Disabled

  datatype Rule = Rule(subject: string, allow: bool, reason: string)

  datatype Payload = Payload(version: U64, issuedAt: int, targetMode: Mode, rules: seq<Rule>)

  datatype SignedPolicy = SignedPolicy(payloadHex: string, signature: string, signingKey: string)

  datatype VerifiedPolicy = VerifiedPolicy(payload: Payload, ruleHashes: seq<string>)

  datatype PalError =
    | InvalidSignature
    | InvalidSigningKey(why: string)
    | InvalidPayload(why: string)
    | NotSupported
    | Backend(why: string)

  datatype VerificationError =
    | UntrustedKey(expected: string, got: string)
    | DuplicateRule(hash: string)
    | PolicyRegressed(previous: U64, current: U64)
    | Unverified(error: PalError)

  /** Ed25519 verification with payload decoding, and the rule hash. */
  datatype Verifier = Verifier(verify: SignedPolicy -> Result<Payload, PalError>, ruleHash: Rule -> string)

  // ---- Text helpers ----

  function LowerChar(c: char): char { if 'A' <= c <= 'Z' then c + ('a' - 'A') else c }

  function Lower(s: string): (t: string)
    ensures |t| == |s|
  {
    seq(|s|, i requires 0 <= i < |s| => LowerChar(s[i]))
  }

  predicate EqIgnoreCase(s: string, t: string) { Lower(s) == Lower(t) }

  function ParseMode(s: string): Mode
  {
    var t := Lower(TextLines.Trim(s));
    if t == "monitor" then Monitor else if t == "enforce" then Enforce else Disabled
  }

  /** One letter in its two cases. */
  predicate CasesOf(upper: char, lower: char) { 'A' <= upper <= 'Z' && lower as int == upper as int + 32 }

  predicate SameButCase(s: string, t: string)
  {
    |s| == |t| && forall i :: 0 <= i < |s| ==> s[i] == t[i] || CasesOf(s[i], t[i]) || CasesOf(t[i], s[i])
  }

  lemma LowerAlike(a: char, b: char)
    ensures LowerChar(a) == LowerChar(b) <==> a == b || CasesOf(a, b) || CasesOf(b, a)
  {
  }

  /** Keys are compared character by character, ASCII letters up to case. */
  lemma EqIgnoreCaseExactly(s: string, t: string)
    ensures EqIgnoreCase(s, t) <==> SameButCase(s, t)
  {
    if |s| == |t| {
      forall i | 0 <= i < |s|
        ensures Lower(s)[i] == Lower(t)[i] <==> s[i] == t[i] || CasesOf(s[i], t[i]) || CasesOf(t[i], s[i])
      {
        LowerAlike(s[i], t[i]);
      }
      if SameButCase(s, t) {
        assert Lower(s) == Lower(t);
      }
    }
  }

  /** The text is the word, in any case, between white space. */
  ghost predicate Says(s: string, word: string)
  {
    exists pre, w, post :: s == pre + w + post && TextLines.Blank(pre) && TextLines.Blank(post) && SameButCase(w, word)
  }

  predicate IsLetter(c: char) { 'a' <= c <= 'z' || 'A' <= c <= 'Z' }

  lemma SaysExactly(s: string, word: string)
    requires word != [] && Lower(word) == word && IsLetter(word[0]) && IsLetter(word[|word| - 1])
    ensures Lower(TextLines.Trim(s)) == word <==> Says(s, word)
  {
    if Lower(TextLines.Trim(s)) == word {
      var pre, post := TextLines.TrimParts(s);
      EqIgnoreCaseExactly(TextLines.Trim(s), word);
    }
    if Says(s, word) {
      var pre, w, post :|
        s == pre + w + post && TextLines.Blank(pre) && TextLines.Blank(post) && SameButCase(w, word);
      TextLines.TrimOf(pre, w, post);
      EqIgnoreCaseExactly(w, word);
    }
  }

  /** Only the two words switch a mode on; everything else, a typing error included, disables the control. */
  lemma ParseModeExactly(s: string)
    ensures ParseMode(s) == Monitor <==> Says(s, "monitor")
    ensures ParseMode(s) == Enforce <==> Says(s, "enforce")
  {
    assert Lower("monitor") == "monitor" && Lower("enforce") == "enforce";
    SaysExactly(s, "monitor");
    SaysExactly(s, "enforce");
  }

  // ---- Verification ----

  function Hashes(v: Verifier, rules: seq<Rule>): (h: seq<string>)
    ensures |h| == |rules|
  {
    seq(|rules|, i requires 0 <= i < |rules| => v.ruleHash(rules[i]))
  }

  /** The first hash that occurred before. */
  function FirstRepeat(hashes: seq<string>, i: nat): Option<string>
    requires i <= |hashes|
    decreases |hashes| - i
  {
    if i == |hashes| then None
    else if hashes[i] in hashes[..i] then Some(hashes[i])
    else FirstRepeat(hashes, i + 1)
  }

  predicate Distinct(hashes: seq<string>) { forall i, j :: 0 <= i < j < |hashes| ==> hashes[i] != hashes[j] }

  function Verified(v: Verifier, signed: SignedPolicy, trusted: string, floor: Option<U64>)
    : Result<VerifiedPolicy, VerificationError>
  {
    if !EqIgnoreCase(signed.signingKey, trusted) then Err(UntrustedKey(trusted, signed.signingKey))
    else
      match v.verify(signed)
      case Err(e) => Err(Unverified(e))
      case Ok(payload) =>
        if floor.Some? && payload.version <= floor.value then Err(PolicyRegressed(floor.value, payload.version))
        else
          var hashes := Hashes(v, payload.rules);
          var repeat := FirstRepeat(hashes, 0);
          if repeat.Some? then Err(DuplicateRule(repeat.value)) else Ok(VerifiedPolicy(payload, hashes))
  }

  /** A repeat is reported exactly when the hashes from here on are not all new. */
  lemma {:induction false} RepeatExactly(hashes: seq<string>, i: nat)
    requires i <= |hashes| && Distinct(hashes[..i])
    ensures FirstRepeat(hashes, i).None? <==> Distinct(hashes)
    decreases |hashes| - i
  {
    if i == |hashes| {
      assert hashes[..i] == hashes;
    } else if hashes[i] in hashes[..i] {
      var j :| 0 <= j < i && hashes[..i][j] == hashes[i];
    } else {
      RepeatExactly(hashes, i + 1);
    }
  }

  /**
   A bundle verifies exactly when the trusted key signed it (up to letter case), its signature and payload
   check out, its version is above the floor and no two rules hash alike.
   */
  lemma VerifiedExactly(v: Verifier, signed: SignedPolicy, trusted: string, floor: Option<U64>)
    ensures Verified(v, signed, trusted, floor).Ok? <==>
            && SameButCase(signed.signingKey, trusted)
            && v.verify(signed).Ok?
            && (floor.Some? ==> v.verify(signed).value.version > floor.value)
            && Distinct(Hashes(v, v.verify(signed).value.rules))
    ensures Verified(v, signed, trusted, floor).Ok? ==>
              Verified(v, signed, trusted, floor).value ==
                VerifiedPolicy(v.verify(signed).value, Hashes(v, v.verify(signed).value.rules))
    ensures Verified(v, signed, trusted, floor).Ok? ==>
              Verified(v, signed, trusted, None) == Verified(v, signed, trusted, floor)
  {
    EqIgnoreCaseExactly(signed.signingKey, trusted);
    if v.verify(signed).Ok? {
      RepeatExactly(Hashes(v, v.verify(signed).value.rules), 0);
    }
  }

  /** The hash at `i` is the first that occurred before. */
  predicate FirstRepeatAt(hashes: seq<string>, i: int)
  {
    0 <= i < |hashes| && hashes[i] in hashes[..i] && Distinct(hashes[..i])
  }

  lemma {:induction false} RepeatIsFirst(hashes: seq<string>, i: nat)
    requires i <= |hashes| && Distinct(hashes[..i]) && FirstRepeat(hashes, i).Some?
    ensures exists k :: FirstRepeatAt(hashes, k) && FirstRepeat(hashes, i) == Some(hashes[k])
    decreases |hashes| - i
  {
    if hashes[i] in hashes[..i] {
      assert FirstRepeatAt(hashes, i);
    } else {
      assert Distinct(hashes[..i + 1]);
      RepeatIsFirst(hashes, i + 1);
    }
  }

  /** Every refusal names the first rule broken: key, signature and payload, version, repeated rule. */
  lemma RefusedExactly(v: Verifier, signed: SignedPolicy, trusted: string, floor: Option<U64>)
    ensures var r, verdict := Verified(v, signed, trusted, floor), v.verify(signed);
            var key := SameButCase(signed.signingKey, trusted);
            && (!key ==> r == Err(UntrustedKey(trusted, signed.signingKey)))
            && (key && verdict.Err? ==> r == Err(Unverified(verdict.error)))
            && (key && verdict.Ok? && floor.Some? && verdict.value.version <= floor.value ==>
                  r == Err(PolicyRegressed(floor.value, verdict.value.version)))
            && (key && verdict.Ok? && (floor.Some? ==> verdict.value.version > floor.value) && r.Err? ==>
                  var hashes := Hashes(v, verdict.value.rules);
                  exists k :: FirstRepeatAt(hashes, k) && r == Err(DuplicateRule(hashes[k])))
  {
    EqIgnoreCaseExactly(signed.signingKey, trusted);
    var verdict := v.verify(signed);
    if verdict.Ok? {
      var hashes := Hashes(v, verdict.value.rules);
      if FirstRepeat(hashes, 0).Some? {
        RepeatIsFirst(hashes, 0);
      }
    }
  }

  /** The checks in order, the rule loop with its set of hashes seen. */
  method VerifySignedPolicy(v: Verifier, signed: SignedPolicy, trusted: string, floor: Option<U64>)
    returns (r: Result<VerifiedPolicy, VerificationError>)
    ensures r == Verified(v, signed, trusted, floor)
  {
    if !EqIgnoreCase(signed.signingKey, trusted) {
      return Err(UntrustedKey(trusted, signed.signingKey));
    }
    var verified := v.verify(signed);
    if verified.Err? {
      return Err(Unverified(verified.error));
    }
    var payload := verified.value;
    if floor.Some? && payload.version <= floor.value {
      return Err(PolicyRegressed(floor.value, payload.version));
    }
    var hashes: seq<string> := [];
    var seen: set<string> := {};
    ghost var all := Hashes(v, payload.rules);
    for i := 0 to |payload.rules|
      invariant hashes == all[..i] && (forall h :: h in seen <==> h in hashes)
      invariant FirstRepeat(all, 0) == FirstRepeat(all, i)
    {
      var h := v.ruleHash(payload.rules[i]);
      if h in seen {
        return Err(DuplicateRule(h));
      }
      seen := seen + {h};
      hashes := hashes + [h];
    }
    assert all[..|all|] == all;
    r := Ok(VerifiedPolicy(payload, hashes));
  }

  // ---- What a policy decides ----

  datatype Decision = Decision(subject: string, matchedAllow: Option<bool>, matchedRuleHash: Option<string>)

  /** The first rule whose subject is the observed one. */
  function FirstMatch(rules: seq<Rule>, subject: string): (r: Option<nat>)
    ensures match r
            case Some(i) =>
              i < |rules| && rules[i].subject == subject && forall k :: 0 <= k < i ==> rules[k].subject != subject
            case None => forall k :: 0 <= k < |rules| ==> rules[k].subject != subject
  {
    if rules == [] then None
    else if rules[0].subject == subject then Some(0)
    else
      var rest := FirstMatch(rules[1..], subject);
      if rest.None? then None else Some(rest.value + 1)
  }

  /** The decision a policy takes on a subject: the first matching rule's, or none. */
  function Decide(policy: Option<VerifiedPolicy>, subject: string): Decision
  {
    if policy.None? then Decision(subject, None, None)
    else
      match FirstMatch(policy.value.payload.rules, subject)
      case None => Decision(subject, None, None)
      case Some(i) =>
        Decision(subject, Some(policy.value.payload.rules[i].allow),
                 if i < |policy.value.ruleHashes| then Some(policy.value.ruleHashes[i]) else None)
  }

  predicate IsFirstFor(rules: seq<Rule>, i: nat, subject: string)
    requires i < |rules|
  {
    rules[i].subject == subject && forall k :: 0 <= k < i ==> rules[k].subject != subject
  }

  /** Under a verified policy a decision is that of the first rule for the subject, and names its hash. */
  lemma DecisionNamesItsRule(v: Verifier, signed: SignedPolicy, trusted: string, floor: Option<U64>, subject: string)
    requires Verified(v, signed, trusted, floor).Ok?
    ensures var policy := Verified(v, signed, trusted, floor).value;
            var d := Decide(Some(policy), subject);
            && (d.matchedAllow.None? <==> forall r :: r in policy.payload.rules ==> r.subject != subject)
            && (d.matchedAllow.Some? ==>
                  exists i :: 0 <= i < |policy.payload.rules| && IsFirstFor(policy.payload.rules, i, subject) &&
                              d == Decision(subject, Some(policy.payload.rules[i].allow),
                                            Some(v.ruleHash(policy.payload.rules[i]))))
  {
    VerifiedExactly(v, signed, trusted, floor);
    var policy := Verified(v, signed, trusted, floor).value;
    var i := FirstMatch(policy.payload.rules, subject);
    if i.Some? {
      assert IsFirstFor(policy.payload.rules, i.value, subject);
      assert policy.payload.rules[i.value] in policy.payload.rules;
    }
  }
}
