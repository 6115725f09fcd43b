/** Per-model access rules of the inference proxy: first match wins, and merging
    two rule sets keeps that meaning. */
module Acl {
  import opened Basics

  datatype Decision = Allow | Deny

  datatype Entry = Entry(subject: string, decision: Decision)

  type Rule = seq<Entry>
  type Config = map<string, Rule>

  const USER: string := "user:"
  const GROUP: string := "group:"

  predicate EntryMatches(subject: string, user: string, groups: seq<string>) {
    if USER <= subject then subject[|USER|..] == "*" || subject[|USER|..] == user
    else GROUP <= subject && (subject[|GROUP|..] == "*" || subject[|GROUP|..] in groups)
  }

  /** The decision of the first entry that matches, if any. */
  function FirstMatch(entries: Rule, user: string, groups: seq<string>): Option<Decision> {
    if entries == [] then None
    else if EntryMatches(entries[0].subject, user, groups) then Some(entries[0].decision)
    else FirstMatch(entries[1..], user, groups)
  }

  function RuleFor(acl: Option<Config>, model: string): Rule {
    if acl.Some? && model in acl.value then acl.value[model] else []
  }

  function OrElse(a: Option<Decision>, b: Option<Decision>): Option<Decision> { if a.Some? then a else b }

  /** No rule and no match both allow. */
  function Verdict(m: Option<Decision>): Decision { if m.Some? then m.value else Allow }

  /** Entry `k` is the first that matches. */
  predicate FirstAt(entries: Rule, user: string, groups: seq<string>, k: nat)
    requires k < |entries|
  {
    EntryMatches(entries[k].subject, user, groups)
    && forall j | 0 <= j < k :: !EntryMatches(entries[j].subject, user, groups)
  }

  /** The first entry that matches decides, and without one access is allowed. */
  ghost predicate Decides(entries: Rule, user: string, groups: seq<string>, d: Decision) {
    && (forall k | 0 <= k < |entries| && FirstAt(entries, user, groups, k) :: d == entries[k].decision)
    && ((forall k | 0 <= k < |entries| :: !EntryMatches(entries[k].subject, user, groups)) ==> d == Allow)
  }

  lemma {:induction false} FirstMatchAt(entries: Rule, user: string, groups: seq<string>, k: nat)
    requires k < |entries| && FirstAt(entries, user, groups, k)
    ensures FirstMatch(entries, user, groups) == Some(entries[k].decision)
  {
    if k > 0 {
      assert !EntryMatches(entries[0].subject, user, groups);
      assert forall j | 0 <= j < k - 1 :: entries[1..][j] == entries[j + 1];
      FirstMatchAt(entries[1..], user, groups, k - 1);
    }
  }

  lemma {:induction false} NoMatch(entries: Rule, user: string, groups: seq<string>)
    requires forall k | 0 <= k < |entries| :: !EntryMatches(entries[k].subject, user, groups)
    ensures FirstMatch(entries, user, groups) == None
  {
    if entries != [] {
      assert forall j | 0 <= j < |entries| - 1 :: entries[1..][j] == entries[j + 1];
      NoMatch(entries[1..], user, groups);
    }
  }

  lemma FirstMatchDecides(entries: Rule, user: string, groups: seq<string>)
    ensures Decides(entries, user, groups, Verdict(FirstMatch(entries, user, groups)))
  {
    forall k | 0 <= k < |entries| && FirstAt(entries, user, groups, k)
      ensures FirstMatch(entries, user, groups) == Some(entries[k].decision)
    {
      FirstMatchAt(entries, user, groups, k);
    }
    if forall k | 0 <= k < |entries| :: !EntryMatches(entries[k].subject, user, groups) {
      NoMatch(entries, user, groups);
    }
  }

  /** Whom a subject matches: a user by name or all users, the members of a group or
      everybody, and nobody if it is neither. */
  lemma SubjectMatches(name: string, user: string, groups: seq<string>)
    ensures EntryMatches("user:" + name, user, groups) <==> name == "*" || name == user
    ensures EntryMatches("group:" + name, user, groups) <==> name == "*" || name in groups
    ensures !("user:" <= name) && !("group:" <= name) ==> !EntryMatches(name, user, groups)
  {
    assert ("user:" + name)[5..] == name;
    assert ("group:" + name)[0] == 'g' && ("group:" + name)[6..] == name;
  }

  method Check(acl: Option<Config>, model: string, user: string, groups: seq<string>) returns (d: Decision)
    ensures d == Verdict(FirstMatch(RuleFor(acl, model), user, groups))
    ensures acl.None? || model !in acl.value ==> d == Allow
    ensures acl.Some? && model in acl.value ==> Decides(acl.value[model], user, groups, d)
  {
    FirstMatchDecides(RuleFor(acl, model), user, groups);
    if acl.None? || model !in acl.value { return Allow; }
    var entries := acl.value[model];
    for k := 0 to |entries|
      invariant FirstMatch(entries[k..], user, groups) == FirstMatch(entries, user, groups)
    {
      assert entries[k..][1..] == entries[k + 1..];
      if EntryMatches(entries[k].subject, user, groups) { return entries[k].decision; }
    }
    return Allow;
  }

  // ---------------------------------------------------------------------
  // Merging
  // ---------------------------------------------------------------------

  function Subjects(entries: Rule): set<string> { set i | 0 <= i < |entries| :: entries[i].subject }

  /** The entries whose subject has not occurred before. */
  function Dedup(entries: Rule): Rule {
    if entries == [] then []
    else
      var init, e := entries[..|entries| - 1], entries[|entries| - 1];
      Dedup(init) + if e.subject in Subjects(init) then [] else [e]
  }

  /** Each subject once, with the entry in which it occurs first, in the order of
      those occurrences. */
  lemma {:induction false} DedupFirsts(entries: Rule)
    ensures forall i, j | 0 <= i < j < |Dedup(entries)| :: Dedup(entries)[i].subject != Dedup(entries)[j].subject
    ensures forall e :: e in Dedup(entries) <==> FirstOccurs(entries, e)
    ensures Subjects(Dedup(entries)) == Subjects(entries)
  {
    if entries != [] {
      var init, last := entries[..|entries| - 1], entries[|entries| - 1];
      assert entries == init + [last];
      DedupFirsts(init);
      SubjectsAppend(init, last);
      SubjectsAppend(Dedup(init), last);
      forall e
        ensures FirstOccurs(entries, e) <==> FirstOccurs(init, e) || (e == last && last.subject !in Subjects(init))
      {
        FirstOccursAppend(init, last, e);
      }
      forall i | 0 <= i < |Dedup(init)| ensures Dedup(init)[i].subject in Subjects(init) {
        assert Dedup(init)[i].subject in Subjects(Dedup(init));
      }
      if last.subject in Subjects(init) {
        assert Dedup(entries) == Dedup(init) && Subjects(entries) == Subjects(init);
      } else {
        assert Dedup(entries) == Dedup(init) + [last];
      }
    }
  }

  /** `e` is in the list, and no entry before it has its subject. */
  predicate FirstOccurs(entries: Rule, e: Entry) {
    exists i | 0 <= i < |entries| :: entries[i] == e && forall j | 0 <= j < i :: entries[j].subject != e.subject
  }

  lemma SubjectsAppend(a: Rule, e: Entry)
    ensures Subjects(a + [e]) == Subjects(a) + {e.subject}
  {
    forall s ensures s in Subjects(a + [e]) <==> s in Subjects(a) || s == e.subject {
      if s in Subjects(a) {
        var i :| 0 <= i < |a| && a[i].subject == s;
        assert (a + [e])[i].subject == s;
      }
      if s == e.subject { assert (a + [e])[|a|].subject == s; }
    }
  }

  lemma FirstOccursAppend(a: Rule, last: Entry, e: Entry)
    ensures FirstOccurs(a + [last], e) <==> FirstOccurs(a, e) || (e == last && last.subject !in Subjects(a))
  {
    var b := a + [last];
    if FirstOccurs(a, e) {
      var i :| 0 <= i < |a| && a[i] == e && forall j | 0 <= j < i :: a[j].subject != e.subject;
      assert b[i] == e && forall j | 0 <= j < i :: b[j] == a[j];
    }
    if e == last && last.subject !in Subjects(a) {
      assert b[|a|] == e && forall j | 0 <= j < |a| :: b[j] == a[j];
    }
    if FirstOccurs(b, e) {
      var i :| 0 <= i < |b| && b[i] == e && forall j | 0 <= j < i :: b[j].subject != e.subject;
      if i < |a| {
        assert a[i] == e && forall j | 0 <= j < i :: a[j] == b[j];
      } else {
        assert forall j | 0 <= j < |a| :: a[j] == b[j];
      }
    }
  }

  /** One loop of `appendEntries`, continuing what has been `seen` in `before`. */
  method AddUnseen(es: Rule, seen: set<string>, out: Rule, ghost before: Rule) returns (seen': set<string>, out': Rule)
    requires out == Dedup(before) && seen == Subjects(before)
    ensures out' == Dedup(before + es) && seen' == Subjects(before + es)
  {
    seen', out' := seen, out;
    ghost var done := before;
    for k := 0 to |es|
      invariant done == before + es[..k] && out' == Dedup(done) && seen' == Subjects(done)
    {
      DedupAppend(done, es[k]);
      done := done + [es[k]];
      if es[k].subject !in seen' {
        seen' := seen' + {es[k].subject};
        out' := out' + [es[k]];
      }
    }
    assert es[..|es|] == es;
  }

  /** `appendEntries`: the union of both lists, first occurrence of a subject wins. */
  method AppendEntries(a: Rule, b: Rule) returns (out: Rule)
    ensures out == Dedup(a + b)
  {
    var seen: set<string>;
    assert [] + a == a;
    seen, out := AddUnseen(a, {}, [], []);
    seen, out := AddUnseen(b, seen, out, a);
  }

  lemma DedupAppend(a: Rule, e: Entry)
    ensures Dedup(a + [e]) == Dedup(a) + if e.subject in Subjects(a) then [] else [e]
    ensures Subjects(a + [e]) == Subjects(a) + {e.subject}
  {
    var b := a + [e];
    assert b[..|a|] == a && b[|a|].subject == e.subject;
    forall s | s in Subjects(a) ensures s in Subjects(b) {
      var i :| 0 <= i < |a| && a[i].subject == s;
      assert b[i].subject == s;
    }
  }

  lemma {:induction false} FirstMatchConcat(a: Rule, b: Rule, user: string, groups: seq<string>)
    ensures FirstMatch(a + b, user, groups) == OrElse(FirstMatch(a, user, groups), FirstMatch(b, user, groups))
  {
    if a == [] {
      assert a + b == b;
    } else {
      assert (a + b)[1..] == a[1..] + b;
      FirstMatchConcat(a[1..], b, user, groups);
    }
  }

  /** A list that mentions a matching subject has a match. */
  lemma {:induction false} SubjectDecides(entries: Rule, user: string, groups: seq<string>, i: nat)
    requires i < |entries| && EntryMatches(entries[i].subject, user, groups)
    ensures FirstMatch(entries, user, groups).Some?
  {
    if i > 0 && !EntryMatches(entries[0].subject, user, groups) {
      SubjectDecides(entries[1..], user, groups, i - 1);
    }
  }

  /** Dropping repeated subjects never changes a decision. */
  lemma {:induction false} DedupKeepsMeaning(entries: Rule, user: string, groups: seq<string>)
    ensures FirstMatch(Dedup(entries), user, groups) == FirstMatch(entries, user, groups)
  {
    if entries != [] {
      var init, e := entries[..|entries| - 1], entries[|entries| - 1];
      assert entries == init + [e];
      DedupKeepsMeaning(init, user, groups);
      FirstMatchConcat(init, [e], user, groups);
      FirstMatchConcat(Dedup(init), [e], user, groups);
      if e.subject in Subjects(init) {
        var i :| 0 <= i < |init| && init[i].subject == e.subject;
        if EntryMatches(e.subject, user, groups) { SubjectDecides(init, user, groups, i); }
        assert FirstMatch([e], user, groups).Some? ==> EntryMatches(e.subject, user, groups);
        assert Dedup(entries) == Dedup(init);
      }
    }
  }

  function MergedRule(base: Config, overlay: Config, m: string): Rule
    requires m in base || m in overlay
  {
    if m !in base then overlay[m] else if m !in overlay then base[m] else Dedup(base[m] + overlay[m])
  }

  function Merged(base: Option<Config>, overlay: Option<Config>): Option<Config> {
    if base.None? then overlay
    else if overlay.None? then base
    else Some(map m | m in base.value.Keys + overlay.value.Keys :: MergedRule(base.value, overlay.value, m))
  }

  method MergeAcl(base: Option<Config>, overlay: Option<Config>) returns (out: Option<Config>)
    ensures out == Merged(base, overlay)
  {
    if base.None? { return overlay; }
    if overlay.None? { return base; }
    var models := base.value;
    var todo := overlay.value.Keys;
    while todo != {}
      invariant todo <= overlay.value.Keys
      invariant models.Keys == base.value.Keys + (overlay.value.Keys - todo)
      invariant forall m | m in models ::
        models[m] == if m in todo then base.value[m] else MergedRule(base.value, overlay.value, m)
    {
      var m :| m in todo;
      if m in models {
        var merged := AppendEntries(models[m], overlay.value[m]);
        models := models[m := merged];
      } else {
        models := models[m := overlay.value[m]];
      }
      todo := todo - {m};
    }
    assert models == Merged(base, overlay).value;
    return Some(models);
  }

  /** A merged configuration has the models of both sides; a model that only one side
      knows keeps its rules as they are, one that both know has each subject once. */
  lemma MergedModels(base: Config, overlay: Config, m: string)
    ensures Merged(Some(base), Some(overlay)).Some?
    ensures var merged := Merged(Some(base), Some(overlay)).value;
      && (m in merged <==> m in base || m in overlay)
      && (m in base && m !in overlay ==> merged[m] == base[m])
      && (m !in base && m in overlay ==> merged[m] == overlay[m])
      && (m in base && m in overlay ==>
            && Subjects(merged[m]) == Subjects(base[m] + overlay[m])
            && forall i, j | 0 <= i < j < |merged[m]| :: merged[m][i].subject != merged[m][j].subject)
    ensures Merged(Some(base), None) == Some(base) && Merged(None, Some(overlay)) == Some(overlay)
    ensures Merged(None, None) == None
  {
    if m in base && m in overlay { DedupFirsts(base[m] + overlay[m]); }
  }

  /** The merged rules decide as the base does if any base entry matches, else as
      the overlay does if one of its entries matches, else they allow. */
  lemma MergeKeepsMeaning(base: Option<Config>, overlay: Option<Config>, model: string, user: string,
                          groups: seq<string>)
    ensures FirstMatch(RuleFor(Merged(base, overlay), model), user, groups)
      == OrElse(FirstMatch(RuleFor(base, model), user, groups), FirstMatch(RuleFor(overlay, model), user, groups))
  {
    var a, b := RuleFor(base, model), RuleFor(overlay, model);
    FirstMatchConcat(a, b, user, groups);
    DedupKeepsMeaning(a + b, user, groups);
  }

  // ---------------------------------------------------------------------
  // Command line tokens
  // ---------------------------------------------------------------------

  /** Go's `unicode.IsSpace`. */
  predicate IsSpace(c: char) {
    || c in {' ', '\t', '\n', '\r', '\U{0B}', '\U{0C}', '\U{85}', '\U{A0}', '\U{1680}',
             '\U{2028}', '\U{2029}', '\U{202F}', '\U{205F}', '\U{3000}'}
    || '\U{2000}' <= c <= '\U{200A}'
  }

  function TrimLeft(s: string): string { if s != [] && IsSpace(s[0]) then TrimLeft(s[1..]) else s }

  function TrimRight(s: string): string {
    if s != [] && IsSpace(s[|s| - 1]) then TrimRight(s[..|s| - 1]) else s
  }

  function TrimSpace(s: string): string { TrimRight(TrimLeft(s)) }

  predicate Contains(s: string, sub: string) {
    exists i | 0 <= i <= |s| :: sub <= s[i..]
  }

  /** The name part of a subject that `validateSubject` accepts. */
  predicate ValidNamePart(name: string) {
    name != "" && (forall c | c in name :: c !in {' ', '\t', '\n', '\r'})
    && !Contains(name, USER) && !Contains(name, GROUP)
  }

  /** `validateSubject`; the signed markers contain the unsigned ones. */
  predicate ValidSubject(s: string) {
    || (USER <= s && ValidNamePart(s[|USER|..]))
    || (GROUP <= s && ValidNamePart(s[|GROUP|..]))
  }

  /** One token: an entry, or nothing when it is rejected. */
  function ParseToken(tok: string): Option<Entry> {
    if tok == "" || tok[0] !in {'+', '-'} || !(USER <= tok[1..] || GROUP <= tok[1..]) || !ValidSubject(tok[1..])
    then None
    else Some(Entry(tok[1..], if tok[0] == '+' then Allow else Deny))
  }

  /** A token as read: blank, rejected, or an entry. */
  datatype Token = Blank | Rejected | Accepted(entry: Entry)

  function ReadToken(raw: string): Token {
    var tok := TrimSpace(raw);
    if tok == "" then Blank
    else
      var e := ParseToken(tok);
      if e.None? then Rejected else Accepted(e.value)
  }

  function ReadAll(tokens: seq<string>): (r: seq<Token>)
    ensures |r| == |tokens| && forall i | 0 <= i < |r| :: r[i] == ReadToken(tokens[i])
  {
    seq(|tokens|, i requires 0 <= i < |tokens| => ReadToken(tokens[i]))
  }

  /** The entries in order, blanks skipped; one rejected token rejects the list. */
  function Collect(tokens: seq<Token>): Option<Rule> {
    if tokens == [] then Some([])
    else
      var init, last := Collect(tokens[..|tokens| - 1]), tokens[|tokens| - 1];
      if init.None? || last.Rejected? then None
      else if last.Blank? then init
      else Some(init.value + [last.entry])
  }

  function ParseAll(tokens: seq<string>): Option<Rule> { Collect(ReadAll(tokens)) }

  method ParseAclEntries(tokens: seq<string>) returns (out: Option<Rule>)
    ensures out == ParseAll(tokens)
  {
    out := CollectTokens(ReadAll(tokens));
  }

  method CollectTokens(all: seq<Token>) returns (out: Option<Rule>)
    ensures out == Collect(all)
  {
    var entries := [];
    for k := 0 to |all|
      invariant Collect(all[..k]) == Some(entries)
    {
      assert all[..k + 1][..k] == all[..k];
      var t := all[k];
      if t.Rejected? {
        RejectedStays(all, k + 1);
        return None;
      }
      if t.Accepted? { entries := entries + [t.entry]; }
    }
    assert all[..|all|] == all;
    return Some(entries);
  }

  lemma {:induction false} RejectedStays(tokens: seq<Token>, k: nat)
    requires k <= |tokens| && Collect(tokens[..k]).None?
    ensures Collect(tokens).None?
    decreases |tokens| - k
  {
    if k == |tokens| {
      assert tokens[..k] == tokens;
    } else {
      assert tokens[..k + 1][..k] == tokens[..k];
      RejectedStays(tokens, k + 1);
    }
  }

  /** The token that stands for an entry. */
  function Render(e: Entry): string { [if e.decision == Allow then '+' else '-'] + e.subject }

  function RenderAll(entries: Rule): seq<string> {
    seq(|entries|, i requires 0 <= i < |entries| => Render(entries[i]))
  }

  /** A valid subject survives being written as a token iff it does not end in a
      space character: validation only refuses four of those, trimming strips all. */
  lemma TokenRoundTripIff(e: Entry)
    requires ValidSubject(e.subject)
    ensures ParseToken(TrimSpace(Render(e))) == Some(e) <==> !IsSpace(e.subject[|e.subject| - 1])
  {
    var tok := Render(e);
    assert tok[1..] == e.subject;
    assert TrimLeft(tok) == tok;
    assert tok[|tok| - 1] == e.subject[|e.subject| - 1];
    if IsSpace(e.subject[|e.subject| - 1]) {
      TrimRightShortens(tok[..|tok| - 1]);
      assert |TrimSpace(tok)| < |tok|;
    }
  }

  /** A sign and a valid subject make a token. */
  lemma SignedToken(sign: char, subject: string)
    requires sign in {'+', '-'} && ValidSubject(subject)
    ensures ParseToken([sign] + subject) == Some(Entry(subject, if sign == '+' then Allow else Deny))
  {
    assert ([sign] + subject)[1..] == subject;
  }

  lemma ValidSubjects(name: string)
    requires ValidNamePart(name)
    ensures ValidSubject("user:" + name) && ValidSubject("group:" + name)
  {
    assert ("user:" + name)[5..] == name && ("group:" + name)[6..] == name;
    assert USER <= "user:" + name && GROUP <= "group:" + name;
  }

  /** The four signs and kinds of token. */
  lemma TokenKinds(name: string)
    requires ValidNamePart(name)
    ensures ParseToken("+" + ("user:" + name)) == Some(Entry("user:" + name, Allow))
    ensures ParseToken("-" + ("user:" + name)) == Some(Entry("user:" + name, Deny))
    ensures ParseToken("+" + ("group:" + name)) == Some(Entry("group:" + name, Allow))
    ensures ParseToken("-" + ("group:" + name)) == Some(Entry("group:" + name, Deny))
  {
    ValidSubjects(name);
    SignedToken('+', "user:" + name);
    SignedToken('-', "user:" + name);
    SignedToken('+', "group:" + name);
    SignedToken('-', "group:" + name);
  }

  /** What is no token at all. */
  lemma NoTokens(name: string)
    requires ValidNamePart(name)
    ensures ParseToken("user:" + name) == None && ParseToken("") == None && ParseToken("+" + name) == None
  {
    assert ("user:" + name)[0] == 'u' && ("+" + name)[1..] == name;
    assert !(USER <= name[0..]) && !(GROUP <= name[0..]) && name[0..] == name;
  }

  lemma BlankRefused(a: string, c: char, b: string)
    requires c in {' ', '\t', '\n', '\r'}
    ensures !ValidNamePart(a + [c] + b)
  {
    assert (a + [c] + b)[|a|] == c && c in a + [c] + b;
  }

  /** What validation refuses in a name: nothing at all, the four blanks, and the mark
      of another token run into it. */
  lemma RefusedNames(a: string, b: string)
    ensures !ValidNamePart("")
    ensures !ValidNamePart(a + " " + b) && !ValidNamePart(a + "\t" + b)
    ensures !ValidNamePart(a + "\n" + b) && !ValidNamePart(a + "\r" + b)
    ensures !ValidNamePart(a + "user:" + b) && !ValidNamePart(a + "group:" + b)
    ensures ValidNamePart("a") && ValidNamePart("*")
  {
    forall c | c in {' ', '\t', '\n', '\r'} ensures !ValidNamePart(a + [c] + b) { BlankRefused(a, c, b); }
    assert a + " " + b == a + [' '] + b && a + "\t" + b == a + ['\t'] + b;
    assert a + "\n" + b == a + ['\n'] + b && a + "\r" + b == a + ['\r'] + b;
    assert (a + "user:" + b)[|a|..] == "user:" + b && USER <= "user:" + b;
    assert (a + "group:" + b)[|a|..] == "group:" + b && GROUP <= "group:" + b;
  }

  /** A subject that validation accepts and a token does not carry: it ends in a
      no-break space. */
  lemma NoBreakSpaceLost()
    ensures var e := Entry("user:a\U{A0}", Allow);
      ValidSubject(e.subject) && ParseToken(TrimSpace(Render(e))) != Some(e)
  {
    var s := "user:a\U{A0}";
    assert s[|USER|..] == "a\U{A0}" && ValidNamePart("a\U{A0}");
    TokenRoundTripIff(Entry(s, Allow));
  }

  lemma {:induction false} TrimRightShortens(s: string)
    ensures |TrimRight(s)| <= |s|
  {
    if s != [] && IsSpace(s[|s| - 1]) { TrimRightShortens(s[..|s| - 1]); }
  }

  lemma {:induction false} CollectAccepted(tokens: seq<Token>, entries: Rule)
    requires |tokens| == |entries| && forall i | 0 <= i < |tokens| :: tokens[i] == Accepted(entries[i])
    ensures Collect(tokens) == Some(entries)
  {
    if entries != [] {
      var k := |entries| - 1;
      CollectAccepted(tokens[..k], entries[..k]);
      assert entries == entries[..k] + [entries[k]];
    }
  }

  /** Rendering and parsing a list of entries gives the list back, in order. */
  lemma RulesRoundTrip(entries: Rule)
    requires forall i | 0 <= i < |entries| ::
      ValidSubject(entries[i].subject) && !IsSpace(entries[i].subject[|entries[i].subject| - 1])
    ensures ParseAll(RenderAll(entries)) == Some(entries)
  {
    forall i | 0 <= i < |entries| ensures ReadToken(RenderAll(entries)[i]) == Accepted(entries[i]) {
      TokenRoundTripIff(entries[i]);
    }
    CollectAccepted(ReadAll(RenderAll(entries)), entries);
  }
}
