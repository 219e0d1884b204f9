/**
 The Linux application-control artefact: translation of rules, lookup, and the line-oriented policy file
 (crates/sda-app-control/src/linux.rs:52-55 and 136-274). The printer of issue times is a parameter.
 */
module LinuxPolicy {
  import opened Wrappers
  import opened AppPolicy
  import opened TextLines
  import Decimal

  datatype Kind = Sha256 | Path | XattrUserSecurity | PackageId | Raw

  datatype Entry = Entry(kind: Kind, value: string, allow: bool, reason: string)

  datatype Artifact = Artifact(version: U64, mode: Mode, issuedAt: int, entries: seq<Entry>)

  // ---- Translation ----

  function FromPrefix(prefix: string): Kind
  {
    var p := Trim(prefix);
    if p == "sha256" then Sha256
    else if p == "path" then Path
    else if p == "xattr" then XattrUserSecurity
    else if p == "package" || p == "pkg" then PackageId
    else Raw
  }

  /** Kind and value of a subject: what is before and after the first colon; a bare subject is a hash. */
  function Translated(subject: string): (Kind, string)
  {
    var prefix := Head(subject, ':');
    if |prefix| < |subject| then (FromPrefix(prefix), subject[|prefix| + 1..]) else (Sha256, subject)
  }

  function TranslateRule(r: Rule): Entry
  {
    var (kind, value) := Translated(r.subject);
    Entry(kind, value, r.allow, r.reason)
  }

  function Entries(rules: seq<Rule>): (es: seq<Entry>)
    ensures |es| == |rules|
  {
    seq(|rules|, i requires 0 <= i < |rules| => TranslateRule(rules[i]))
  }

  function BuildArtifact(p: Payload): Artifact { Artifact(p.version, p.targetMode, p.issuedAt, Entries(p.rules)) }

  // ---- Lookup ----

  predicate Hits(e: Entry, t: (Kind, string)) { e.kind == t.0 && e.value == t.1 }

  /** The first entry with this kind and value. */
  function Find(entries: seq<Entry>, t: (Kind, string)): (r: Option<nat>)
    ensures match r
            case Some(j) => j < |entries| && Hits(entries[j], t) && forall k :: 0 <= k < j ==> !Hits(entries[k], t)
            case None => forall k :: 0 <= k < |entries| ==> !Hits(entries[k], t)
  {
    if entries == [] then None
    else if Hits(entries[0], t) then Some(0)
    else
      var rest := Find(entries[1..], t);
      if rest.None? then None else Some(rest.value + 1)
  }

  function MatchSubject(a: Artifact, subject: string): Option<nat> { Find(a.entries, Translated(subject)) }

  /** The Linux lookup on the artefact of a payload, and the monitor's rule for the same subject. */
  function LinuxMatch(p: Payload, subject: string): Option<nat> { MatchSubject(BuildArtifact(p), subject) }

  function MonitorMatch(p: Payload, subject: string): Option<nat> { FirstMatch(p.rules, subject) }

  /** No two subjects of the policy, and the observed one, are merged by translation. */
  predicate TranslatesApart(p: Payload, subject: string)
  {
    forall r :: r in p.rules && Translated(r.subject) == Translated(subject) ==> r.subject == subject
  }

  lemma HitsRule(p: Payload, k: nat, subject: string)
    requires k < |p.rules|
    ensures Hits(BuildArtifact(p).entries[k], Translated(subject)) <==>
              Translated(p.rules[k].subject) == Translated(subject)
  {
  }

  /** Where the monitor matches rule `i`, the Linux lookup matches a rule no later than `i`: it is coarser. */
  lemma LinuxIsCoarser(p: Payload, subject: string)
    ensures MonitorMatch(p, subject).Some? ==>
              LinuxMatch(p, subject).Some? && LinuxMatch(p, subject).value <= MonitorMatch(p, subject).value
  {
    if MonitorMatch(p, subject).Some? {
      HitsRule(p, MonitorMatch(p, subject).value, subject);
    }
  }

  /** Both pick the same rule exactly when the rule Linux picks, if any, names the observed subject itself. */
  lemma SameRuleExactly(p: Payload, subject: string)
    ensures LinuxMatch(p, subject) == MonitorMatch(p, subject) <==>
            (LinuxMatch(p, subject).Some? ==> p.rules[LinuxMatch(p, subject).value].subject == subject)
  {
    LinuxIsCoarser(p, subject);
    var i, j := MonitorMatch(p, subject), LinuxMatch(p, subject);
    if j.Some? && i.Some? && j.value < i.value {
      assert p.rules[j.value].subject != subject;
    }
  }

  lemma TranslatesApartAgrees(p: Payload, subject: string)
    requires TranslatesApart(p, subject)
    ensures LinuxMatch(p, subject) == MonitorMatch(p, subject)
  {
    var j := LinuxMatch(p, subject);
    if j.Some? {
      HitsRule(p, j.value, subject);
      assert p.rules[j.value] in p.rules;
    }
    SameRuleExactly(p, subject);
  }

  predicate Agree(p: Payload) { forall r :: r in p.rules ==> LinuxMatch(p, r.subject) == MonitorMatch(p, r.subject) }

  predicate InjectiveOn(p: Payload)
  {
    forall r, s :: r in p.rules && s in p.rules && Translated(r.subject) == Translated(s.subject) ==>
      r.subject == s.subject
  }

  lemma AgreementSeparates(p: Payload, r: Rule, s: Rule)
    requires Agree(p) && r in p.rules && s in p.rules && Translated(r.subject) == Translated(s.subject)
    ensures r.subject == s.subject
  {
    var k :| 0 <= k < |p.rules| && p.rules[k] == r;
    HitsRule(p, k, r.subject);
    assert LinuxMatch(p, r.subject) == LinuxMatch(p, s.subject);
    SameRuleExactly(p, r.subject);
    SameRuleExactly(p, s.subject);
  }

  /** The two matchers agree on every subject of a policy exactly when translation keeps those subjects apart. */
  lemma AgreeExactly(p: Payload)
    ensures Agree(p) <==> InjectiveOn(p)
  {
    if InjectiveOn(p) {
      forall r | r in p.rules ensures LinuxMatch(p, r.subject) == MonitorMatch(p, r.subject) {
        TranslatesApartAgrees(p, r.subject);
      }
    }
    if Agree(p) {
      forall r, s | r in p.rules && s in p.rules && Translated(r.subject) == Translated(s.subject)
        ensures r.subject == s.subject
      {
        AgreementSeparates(p, r, s);
      }
    }
  }

  lemma TranslatedOf(prefix: string, value: string)
    requires Free(prefix, ':')
    ensures Translated(prefix + ":" + value) == (FromPrefix(prefix), value)
  {
    HeadOf(prefix, value, ':');
    assert (prefix + ":" + value)[|prefix| + 1..] == value;
  }

  /** Prefixes the backend does not know are dropped: subjects that differ only there become one. */
  lemma UnknownPrefixesMerge(p: string, q: string, value: string)
    requires Free(p, ':') && Free(q, ':') && FromPrefix(p) == FromPrefix(q)
    ensures Translated(p + ":" + value) == Translated(q + ":" + value)
  {
    TranslatedOf(p, value);
    TranslatedOf(q, value);
  }

  /** Any two subjects that are merged make a policy on which the matchers decide opposite things. */
  lemma MergedSubjectsDisagree(a: string, b: string)
    requires a != b && Translated(a) == Translated(b)
    ensures var p := Payload(1, 0, Enforce, [Rule(a, false, ""), Rule(b, true, "")]);
            && MonitorMatch(p, b) == Some(1) && p.rules[1].allow
            && LinuxMatch(p, b) == Some(0) && !p.rules[0].allow
  {
    var p := Payload(1, 0, Enforce, [Rule(a, false, ""), Rule(b, true, "")]);
    HitsRule(p, 0, b);
    assert p.rules[0].subject != b && p.rules[1].subject == b;
  }

  lemma TrimKeeps(s: string)
    requires s != "" && !IsSpace(s[0]) && !IsSpace(s[|s| - 1])
    ensures Trim(s) == s
  {
  }

  /** Team ids and publishers are such subjects. */
  lemma PublisherIsNotTeam(value: string)
    ensures Translated("team_id" + ":" + value) == Translated("publisher" + ":" + value) == (Raw, value)
  {
    TrimKeeps("team_id");
    TrimKeeps("publisher");
    TranslatedOf("team_id", value);
    TranslatedOf("publisher", value);
  }

  /** White space in front of a prefix changes nothing. */
  lemma PaddedPrefix(prefix: string)
    ensures FromPrefix(" " + prefix) == FromPrefix(prefix)
  {
    assert (" " + prefix)[1..] == prefix;
    assert TrimStart(" " + prefix) == TrimStart(prefix);
  }

  lemma {:induction false} PaddedSubject(subject: string)
    requires |Head(subject, ':')| < |subject|
    ensures Translated(" " + subject) == Translated(subject)
  {
    var prefix := Head(subject, ':');
    var value := subject[|prefix| + 1..];
    assert subject == prefix + ":" + value;
    assert " " + subject == (" " + prefix) + ":" + value;
    TranslatedOf(" " + prefix, value);
    PaddedPrefix(prefix);
  }

  lemma BareSubject(subject: string)
    requires |Head(subject, ':')| == |subject|
    ensures Translated("sha256" + ":" + subject) == Translated(subject)
  {
    TrimKeeps("sha256");
    TranslatedOf("sha256", subject);
  }

  /** Every subject has a second spelling that translates alike. */
  lemma SecondSpelling(subject: string) returns (other: string)
    ensures other != subject && Translated(other) == Translated(subject)
  {
    if |Head(subject, ':')| < |subject| {
      PaddedSubject(subject);
      other := " " + subject;
    } else {
      BareSubject(subject);
      other := "sha256" + ":" + subject;
    }
    assert |other| > |subject|;
  }

  ghost predicate AgreeEverywhere(p: Payload) { forall s :: LinuxMatch(p, s) == MonitorMatch(p, s) }

  /** On all observed subjects the two matchers agree only if there is nothing to match. */
  lemma AgreeEverywhereExactly(p: Payload)
    ensures AgreeEverywhere(p) <==> p.rules == []
  {
    if p.rules != [] {
      var other := SecondSpelling(p.rules[0].subject);
      HitsRule(p, 0, other);
      assert LinuxMatch(p, other) == Some(0);
      assert MonitorMatch(p, other) != Some(0);
    }
  }

  // ---- The policy file ----

  function KindName(k: Kind): string
  {
    match k
    case Sha256 => "sha256"
    case Path => "path"
    case XattrUserSecurity => "xattr"
    case PackageId => "package"
    case Raw => "raw"
  }

  function KindNamed(s: string): Option<Kind>
  {
    if s == "sha256" then Some(Sha256)
    else if s == "path" then Some(Path)
    else if s == "xattr" then Some(XattrUserSecurity)
    else if s == "package" then Some(PackageId)
    else if s == "raw" then Some(Raw)
    else None
  }

  function ModeName(m: Mode): string
  {
    match m
    case Monitor => "monitor"
    case Enforce => "enforce"
    case Disabled => "disabled"
  }

  const TAB := '\t'
  const NEWLINE := '\n'
  const HEADER := "# sn360-desktop-agent" + " app-control policy." + " Format: kind\tvalue" + "\taction\treason"

  function EscapeChar(c: char): char { if c == TAB || c == NEWLINE then ' ' else c }

  function Escape(s: string): (t: string)
    ensures |t| == |s| && Free(t, TAB) && Free(t, NEWLINE)
    ensures Free(s, TAB) && Free(s, NEWLINE) ==> t == s
    ensures forall i :: 0 <= i < |s| ==> t[i] == if s[i] == '\t' || s[i] == '\n' then ' ' else s[i]
  {
    seq(|s|, i requires 0 <= i < |s| => EscapeChar(s[i]))
  }

  /** An entry as the file shows it. */
  function Escaped(e: Entry): Entry { e.(value := Escape(e.value), reason := Escape(e.reason)) }

  function ActionName(allow: bool): string { if allow then "allow" else "deny" }

  /** `kind`, `value`, `action` and `reason`, tabs between them. */
  function RowFields(e: Entry): seq<string>
  {
    [KindName(e.kind), Escape(e.value), ActionName(e.allow), Escape(e.reason)]
  }

  function Row(e: Entry): string { Separated(RowFields(e), TAB) }

  function Rows(es: seq<Entry>): (rows: seq<string>)
    ensures |rows| == |es|
  {
    seq(|es|, i requires 0 <= i < |es| => Row(es[i]))
  }

  /** The comment lines, given the text of the issue time. */
  function Preamble(a: Artifact, stamp: string): (lines: seq<string>)
    ensures |lines| == 4
  {
    [HEADER, "# version: " + Decimal.Text(Decimal.Digits(a.version)), "# mode: " + ModeName(a.mode),
     "# issued_at: " + stamp]
  }

  function Render(a: Artifact, stamp: string): string { Joined(Preamble(a, stamp) + Rows(a.entries), NEWLINE) }

  method RenderPolicyFile(a: Artifact, stamp: string) returns (out: string)
    ensures out == Render(a, stamp)
  {
    out := HEADER + [NEWLINE];
    out := out + ("# version: " + Decimal.Text(Decimal.Digits(a.version)) + [NEWLINE]);
    out := out + ("# mode: " + ModeName(a.mode) + [NEWLINE]);
    out := out + ("# issued_at: " + stamp + [NEWLINE]);
    PreambleText(a, stamp);
    out := RenderRows(a.entries, out);
    JoinedConcat(Preamble(a, stamp), Rows(a.entries), NEWLINE);
  }

  method RenderRows(es: seq<Entry>, before: string) returns (out: string)
    ensures out == before + Joined(Rows(es), NEWLINE)
  {
    out := before;
    assert Rows(es)[..0] == [];
    for i := 0 to |es|
      invariant out == before + Joined(Rows(es)[..i], NEWLINE)
    {
      var action := if es[i].allow then "allow" else "deny";
      var row := Separated([KindName(es[i].kind), Escape(es[i].value), action, Escape(es[i].reason)], TAB);
      out := out + (row + [NEWLINE]);
      RowAppended(es, i, before);
    }
    assert Rows(es)[..|es|] == Rows(es);
  }

  lemma RowAppended(es: seq<Entry>, i: nat, before: string)
    requires i < |es|
    ensures before + Joined(Rows(es)[..i], NEWLINE) + (Row(es[i]) + [NEWLINE]) ==
              before + Joined(Rows(es)[..i + 1], NEWLINE)
  {
    JoinedNext(Rows(es)[..i], Row(es[i]));
    assert Rows(es)[..i + 1] == Rows(es)[..i] + [Row(es[i])];
  }

  lemma JoinedNext(lines: seq<string>, line: string)
    ensures Joined(lines + [line], NEWLINE) == Joined(lines, NEWLINE) + (line + [NEWLINE])
  {
    JoinedConcat(lines, [line], NEWLINE);
    assert Joined([line], NEWLINE) == line + [NEWLINE] + "";
  }

  lemma PreambleText(a: Artifact, stamp: string)
    ensures Joined(Preamble(a, stamp), NEWLINE) ==
            HEADER + [NEWLINE] + ("# version: " + Decimal.Text(Decimal.Digits(a.version)) + [NEWLINE])
            + ("# mode: " + ModeName(a.mode) + [NEWLINE]) + ("# issued_at: " + stamp + [NEWLINE])
  {
    var p := Preamble(a, stamp);
    FourLines(p[0], p[1], p[2], p[3]);
  }

  lemma FourLines(a: string, b: string, c: string, d: string)
    ensures Joined([a, b, c, d], NEWLINE) == a + [NEWLINE] + (b + [NEWLINE]) + (c + [NEWLINE]) + (d + [NEWLINE])
  {
    JoinedNext([], a);
    JoinedNext([a], b);
    JoinedNext([a, b], c);
    JoinedNext([a, b, c], d);
    assert [a] + [b] == [a, b] && [a, b] + [c] == [a, b, c] && [a, b, c] + [d] == [a, b, c, d] && [] + [a] == [a];
  }

  // ---- Reading the file back ----

  function ReadRow(line: string): Option<Entry>
  {
    var f := Cut(line, TAB);
    if |f| != 4 || KindNamed(f[0]).None? || (f[2] != "allow" && f[2] != "deny") then None
    else Some(Entry(KindNamed(f[0]).value, f[1], f[2] == "allow", f[3]))
  }

  predicate IsComment(line: string) { line != "" && line[0] == '#' }

  /** The rows of a file: the lines that are neither comments nor empty. */
  function ReadRows(lines: seq<string>): seq<Option<Entry>>
  {
    if lines == [] then []
    else if lines[0] == "" || IsComment(lines[0]) then ReadRows(lines[1..])
    else [ReadRow(lines[0])] + ReadRows(lines[1..])
  }

  function ReadFile(text: string): seq<Option<Entry>> { ReadRows(Cut(text, NEWLINE)) }

  lemma NamesAreClean(e: Entry, f: string)
    requires f in RowFields(e)
    ensures Free(f, TAB) && Free(f, NEWLINE)
  {
  }

  lemma KindNameReads(k: Kind)
    ensures KindNamed(KindName(k)) == Some(k) && |KindName(k)| >= 3 && KindName(k)[0] != '#'
  {
  }

  lemma RowStart(e: Entry)
    ensures |Row(e)| >= 3 && Row(e)[0] == KindName(e.kind)[0]
  {
    KindNameReads(e.kind);
  }

  lemma RowCut(e: Entry)
    ensures Cut(Row(e), TAB) == RowFields(e)
    ensures Free(Row(e), NEWLINE)
  {
    forall f | f in RowFields(e) ensures Free(f, TAB) && Free(f, NEWLINE) {
      NamesAreClean(e, f);
    }
    CutSeparated(RowFields(e), TAB);
    SeparatedFree(RowFields(e), TAB, NEWLINE);
  }

  /** Every row has exactly three tabs, no newline, and reads back as its entry with clean fields. */
  lemma RowReads(e: Entry)
    ensures ReadRow(Row(e)) == Some(Escaped(e))
    ensures Occurrences(Row(e), TAB) == 3 && Free(Row(e), NEWLINE) && Row(e) != "" && !IsComment(Row(e))
  {
    RowCut(e);
    PiecesAndSeparators(Row(e), TAB);
    KindNameReads(e.kind);
    RowStart(e);
  }

  lemma DigitsAreFree(ds: seq<Decimal.Digit>, c: char)
    requires c < '0' || c > '9'
    ensures Free(Decimal.Text(ds), c)
  {
  }

  lemma HeaderIsComment()
    ensures IsComment(HEADER) && Free(HEADER, NEWLINE)
  {
    var a, b, c, d := "# sn360-desktop-agent", " app-control policy.", " Format: kind\tvalue", "\taction\treason";
    assert a[0] == '#';
    assert Free(a, NEWLINE);
    assert Free(b, NEWLINE);
    assert Free(c, NEWLINE);
    assert Free(d, NEWLINE);
  }

  lemma LabelIsComment(prefix: string, text: string)
    requires prefix in ["# version: ", "# mode: ", "# issued_at: "] && Free(text, NEWLINE)
    ensures IsComment(prefix + text) && Free(prefix + text, NEWLINE)
  {
    assert (prefix + text)[0] == prefix[0];
  }

  lemma PreambleIsComments(a: Artifact, stamp: string, i: nat)
    requires i < 4 && Free(stamp, NEWLINE)
    ensures IsComment(Preamble(a, stamp)[i]) && Free(Preamble(a, stamp)[i], NEWLINE)
  {
    HeaderIsComment();
    DigitsAreFree(Decimal.Digits(a.version), NEWLINE);
    LabelIsComment("# version: ", Decimal.Text(Decimal.Digits(a.version)));
    LabelIsComment("# mode: ", ModeName(a.mode));
    LabelIsComment("# issued_at: ", stamp);
  }

  /** A line that survives being cut out of the file. */
  predicate IsLine(s: string) { Free(s, NEWLINE) }

  lemma RowsAreLines(es: seq<Entry>)
    ensures forall row :: row in Rows(es) ==> IsLine(row)
  {
    forall i | 0 <= i < |es| ensures IsLine(Rows(es)[i]) {
      RowReads(es[i]);
    }
  }

  lemma PreambleIsLines(a: Artifact, stamp: string)
    requires Free(stamp, NEWLINE)
    ensures forall line :: line in Preamble(a, stamp) ==> IsLine(line)
  {
    forall i | 0 <= i < 4 ensures IsLine(Preamble(a, stamp)[i]) {
      PreambleIsComments(a, stamp, i);
    }
  }

  lemma CutLines(a: seq<string>, b: seq<string>)
    requires forall line :: line in a ==> IsLine(line)
    requires forall line :: line in b ==> IsLine(line)
    ensures Cut(Joined(a + b, NEWLINE), NEWLINE) == a + b + [""]
  {
    CutJoined(a + b, NEWLINE);
  }

  lemma LinesOfRender(a: Artifact, stamp: string)
    requires Free(stamp, NEWLINE)
    ensures Cut(Render(a, stamp), NEWLINE) == Preamble(a, stamp) + Rows(a.entries) + [""]
  {
    PreambleIsLines(a, stamp);
    RowsAreLines(a.entries);
    CutLines(Preamble(a, stamp), Rows(a.entries));
  }

  function Shown(es: seq<Entry>): (r: seq<Option<Entry>>)
    ensures |r| == |es|
  {
    seq(|es|, i requires 0 <= i < |es| => Some(Escaped(es[i])))
  }

  lemma ReadNext(e: Entry, lines: seq<string>)
    ensures ReadRows([Row(e)] + lines) == [Some(Escaped(e))] + ReadRows(lines)
  {
    RowReads(e);
    assert ([Row(e)] + lines)[1..] == lines;
  }

  lemma FirstRow(es: seq<Entry>)
    requires es != []
    ensures Rows(es) + [""] == [Row(es[0])] + (Rows(es[1..]) + [""])
    ensures Shown(es) == [Some(Escaped(es[0]))] + Shown(es[1..])
  {
  }

  lemma {:induction false} RowsRead(es: seq<Entry>)
    ensures ReadRows(Rows(es) + [""]) == Shown(es)
  {
    if es == [] {
      assert Rows(es) + [""] == [""];
    } else {
      RowsRead(es[1..]);
      ReadNext(es[0], Rows(es[1..]) + [""]);
      FirstRow(es);
    }
  }

  lemma {:induction false} CommentsSkipped(comments: seq<string>, lines: seq<string>)
    requires forall i :: 0 <= i < |comments| ==> IsComment(comments[i])
    ensures ReadRows(comments + lines) == ReadRows(lines)
  {
    if comments == [] {
      assert comments + lines == lines;
    } else {
      assert (comments + lines)[1..] == comments[1..] + lines;
      CommentsSkipped(comments[1..], lines);
    }
  }

  /** The file reads back: every entry, in order, with tabs and newlines shown as spaces. */
  lemma FileReadsBack(a: Artifact, stamp: string)
    requires Free(stamp, NEWLINE)
    ensures ReadFile(Render(a, stamp)) == Shown(a.entries)
  {
    LinesOfRender(a, stamp);
    forall i | 0 <= i < 4 ensures IsComment(Preamble(a, stamp)[i]) {
      PreambleIsComments(a, stamp, i);
    }
    assert Preamble(a, stamp) + Rows(a.entries) + [""] == Preamble(a, stamp) + (Rows(a.entries) + [""]);
    CommentsSkipped(Preamble(a, stamp), Rows(a.entries) + [""]);
    RowsRead(a.entries);
  }

  lemma SameTail(prefix: string, s: string, t: string)
    requires prefix + s == prefix + t
    ensures s == t
  {
    assert (prefix + s)[|prefix|..] == s && (prefix + t)[|prefix|..] == t;
  }

  lemma ModeNameInjective(m: Mode, n: Mode)
    requires ModeName(m) == ModeName(n)
    ensures m == n
  {
    assert ModeName(m)[0] == ModeName(n)[0];
  }

  lemma PreambleDetermines(a: Artifact, s: string, b: Artifact, t: string)
    requires Preamble(a, s) == Preamble(b, t)
    ensures a.version == b.version && a.mode == b.mode && s == t
  {
    var p, q := Preamble(a, s), Preamble(b, t);
    assert p[1] == q[1] && p[2] == q[2] && p[3] == q[3];
    SameTail("# version: ", Decimal.Text(Decimal.Digits(a.version)), Decimal.Text(Decimal.Digits(b.version)));
    Decimal.TextInjective(Decimal.Digits(a.version), Decimal.Digits(b.version));
    Decimal.DigitsInjective(a.version, b.version);
    SameTail("# mode: ", ModeName(a.mode), ModeName(b.mode));
    ModeNameInjective(a.mode, b.mode);
    SameTail("# issued_at: ", s, t);
  }

  lemma ShownRows(es: seq<Entry>, fs: seq<Entry>)
    requires Shown(es) == Shown(fs)
    ensures Rows(es) == Rows(fs)
  {
    assert |es| == |fs|;
    forall i | 0 <= i < |es| ensures Row(es[i]) == Row(fs[i]) {
      assert Shown(es)[i] == Shown(fs)[i];
      assert Escaped(es[i]) == Escaped(fs[i]);
    }
  }

  /** Two files are equal exactly when version, mode, issue time as printed and the entries as shown are equal. */
  lemma RenderExactly(a: Artifact, s: string, b: Artifact, t: string)
    requires Free(s, NEWLINE) && Free(t, NEWLINE)
    ensures Render(a, s) == Render(b, t) <==>
            a.version == b.version && a.mode == b.mode && s == t && Shown(a.entries) == Shown(b.entries)
  {
    if Render(a, s) == Render(b, t) {
      FileReadsBack(a, s);
      FileReadsBack(b, t);
      LinesOfRender(a, s);
      LinesOfRender(b, t);
      assert Cut(Render(a, s), NEWLINE)[..4] == Preamble(a, s);
      assert Cut(Render(b, t), NEWLINE)[..4] == Preamble(b, t);
      PreambleDetermines(a, s, b, t);
    }
    if Shown(a.entries) == Shown(b.entries) {
      ShownRows(a.entries, b.entries);
    }
  }

  predicate CleanFields(es: seq<Entry>)
  {
    forall i :: 0 <= i < |es| ==>
      Free(es[i].value, TAB) && Free(es[i].value, NEWLINE) && Free(es[i].reason, TAB) && Free(es[i].reason, NEWLINE)
  }

  /** With clean fields nothing is lost: the file determines the artefact's version, mode and entries. */
  lemma CleanRenderDetermines(a: Artifact, b: Artifact, stamp: string)
    requires Free(stamp, NEWLINE) && CleanFields(a.entries) && CleanFields(b.entries)
    requires Render(a, stamp) == Render(b, stamp)
    ensures a.version == b.version && a.mode == b.mode && a.entries == b.entries
  {
    RenderExactly(a, stamp, b, stamp);
    assert |a.entries| == |b.entries|;
    forall i | 0 <= i < |a.entries| ensures a.entries[i] == b.entries[i] {
      assert Shown(a.entries)[i] == Shown(b.entries)[i];
    }
  }

  // ---- From the payload to the file ----

  lemma KnownPrefix(prefix: string, x: string)
    requires prefix != "" && Free(prefix, ':') && !IsSpace(prefix[0]) && !IsSpace(prefix[|prefix| - 1])
    ensures FromPrefix(prefix) ==
            if prefix == "sha256" then Sha256 else if prefix == "path" then Path
            else if prefix == "xattr" then XattrUserSecurity
            else if prefix == "package" || prefix == "pkg" then PackageId else Raw
    ensures Translated(prefix + ":" + x) == (FromPrefix(prefix), x)
  {
    TrimKeeps(prefix);
    TranslatedOf(prefix, x);
  }

  lemma HashesAndPaths(x: string)
    ensures Translated("sha256" + ":" + x) == (Sha256, x) && Translated("path" + ":" + x) == (Path, x)
  {
    KnownPrefix("sha256", x);
    KnownPrefix("path", x);
  }

  lemma AttributesAndPackages(x: string)
    ensures Translated("xattr" + ":" + x) == (XattrUserSecurity, x)
    ensures Translated("package" + ":" + x) == (PackageId, x) && Translated("pkg" + ":" + x) == (PackageId, x)
  {
    KnownPrefix("xattr", x);
    KnownPrefix("package", x);
    KnownPrefix("pkg", x);
  }

  /** The prefixes the backend knows; a subject without one is a hash. */
  lemma KnownPrefixes(x: string)
    ensures Translated("sha256" + ":" + x) == (Sha256, x) && Translated("path" + ":" + x) == (Path, x)
    ensures Translated("xattr" + ":" + x) == (XattrUserSecurity, x)
    ensures Translated("package" + ":" + x) == (PackageId, x) && Translated("pkg" + ":" + x) == (PackageId, x)
    ensures Free(x, ':') ==> Translated(x) == (Sha256, x)
  {
    HashesAndPaths(x);
    AttributesAndPackages(x);
    if Free(x, ':') {
      HeadWhole(x, ':');
    }
  }

  /** The name of a kind is a prefix of that kind. */
  lemma KindNameIsPrefix(k: Kind)
    ensures FromPrefix(KindName(k)) == k
  {
    TrimKeeps(KindName(k));
  }

  /** What the file shows of a rule. */
  function ShownRule(r: Rule): Entry
  {
    Entry(Translated(r.subject).0, Escape(Translated(r.subject).1), r.allow, Escape(r.reason))
  }

  /** The file of a payload shows every rule, in order, with its verdict and its reason. */
  lemma PolicyFileReads(p: Payload, stamp: string)
    requires Free(stamp, NEWLINE)
    ensures var rows := ReadFile(Render(BuildArtifact(p), stamp));
            |rows| == |p.rules| && forall i :: 0 <= i < |p.rules| ==> rows[i] == Some(ShownRule(p.rules[i]))
  {
    var a := BuildArtifact(p);
    FileReadsBack(a, stamp);
    forall i | 0 <= i < |p.rules| ensures Shown(a.entries)[i] == Some(ShownRule(p.rules[i])) {
      assert a.entries[i] == TranslateRule(p.rules[i]);
    }
  }

  lemma ModeNameReads(m: Mode)
    ensures ParseMode(ModeName(m)) == m
  {
    TrimKeeps(ModeName(m));
    assert Lower(ModeName(m)) == ModeName(m);
  }

  /** And its first lines: the header, the version, the mode and the time of issue of the payload. */
  lemma PreambleReads(p: Payload, stamp: string)
    requires Free(stamp, NEWLINE)
    ensures var lines := TextLines.Cut(Render(BuildArtifact(p), stamp), NEWLINE);
            && |lines| >= 4
            && lines[0] == "# sn360-desktop-agent" + " app-control policy." + " Format: kind\tvalue" +
                           "\taction\treason"
            && lines[1] == "# version: " + Decimal.Text(Decimal.Digits(p.version))
            && lines[2] == "# mode: " + ModeName(p.targetMode) && lines[3] == "# issued_at: " + stamp
    ensures BuildArtifact(p).issuedAt == p.issuedAt
    ensures Decimal.Value(Decimal.Digits(p.version)) == p.version && ParseMode(ModeName(p.targetMode)) == p.targetMode
  {
    LinesOfRender(BuildArtifact(p), stamp);
    Decimal.ValueOfDigits(p.version);
    ModeNameReads(p.targetMode);
  }

  /** A match carries the verdict and the reason of the rule it stands for. */
  lemma MatchDecides(p: Payload, subject: string)
    ensures LinuxMatch(p, subject).Some? ==>
              var i := LinuxMatch(p, subject).value;
              && i < |p.rules| && Translated(p.rules[i].subject) == Translated(subject)
              && BuildArtifact(p).entries[i].allow == p.rules[i].allow
              && BuildArtifact(p).entries[i].reason == p.rules[i].reason
  {
    if LinuxMatch(p, subject).Some? {
      HitsRule(p, LinuxMatch(p, subject).value, subject);
    }
  }
}
