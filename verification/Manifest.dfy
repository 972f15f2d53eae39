/** Recording a template's version and commit in the manifest: two string fields are edited in place. */
module Manifest {
  import opened Common
  import opened FieldPattern
  import Text

  datatype Outcome = Updated(contents: string) | Rejected(reason: Reason)
  datatype Reason = BadVersion | BadCommit | Unreadable | NotOnce(field: string)

  const VERSION_FIELD := "template_version"
  const COMMIT_FIELD := "template_commit"

  predicate Digits(s: string) { s != "" && forall i :: 0 <= i < |s| ==> Text.IsDigit(s[i]) }

  /** ^[0-9]+\.[0-9]+\.[0-9]+$ */
  predicate ValidVersion(version: string) {
    var parts := Text.Split(version, '.');
    |parts| == 3 && Digits(parts[0]) && Digits(parts[1]) && Digits(parts[2])
  }

  /** ^[0-9a-f]{40}$ */
  predicate ValidCommit(commit: string) {
    |commit| == 40 && forall i :: 0 <= i < 40 ==> '0' <= commit[i] <= '9' || 'a' <= commit[i] <= 'f'
  }

  /** The replacement template takes a value as it stands if it holds no "$". */
  function ReplaceStringField(c: string, field: string, value: string): Outcome {
    var matches := FindAll(c, field, 0);
    if |matches| != 1 then Rejected(NotOnce(field)) else
      OnceMeans(c, field, matches[0]);
      Updated(Splice(c, matches[0].quote + 1, matches[0].close, value))
  }

  /** Both fields, one after the other. */
  function ReplaceBoth(c: string, field: string, value: string, field': string, value': string): Outcome {
    match ReplaceStringField(c, field, value)
    case Rejected(reason) => Rejected(reason)
    case Updated(c1) => ReplaceStringField(c1, field', value')
  }

  function Record(c: string, version: string, commit: string): Outcome {
    if !ValidVersion(version) then Rejected(BadVersion)
    else if !ValidCommit(commit) then Rejected(BadCommit)
    else ReplaceBoth(c, VERSION_FIELD, version, COMMIT_FIELD, commit)
  }

  /** The manifest file; None while it cannot be read. */
  class File {
    var contents: Option<string>

    /** The file is written once, after every check; on any error it is left as it was. */
    method RecordProvenance(version: string, commit: string) returns (outcome: Outcome)
      modifies this
      ensures outcome == if old(contents).Some? then Record(old(contents).value, version, commit)
                         else if !ValidVersion(version) then Rejected(BadVersion)
                         else if !ValidCommit(commit) then Rejected(BadCommit)
                         else Rejected(Unreadable)
      ensures contents == if outcome.Updated? then Some(outcome.contents) else old(contents)
    {
      if !ValidVersion(version) {
        return Rejected(BadVersion);
      }
      if !ValidCommit(commit) {
        return Rejected(BadCommit);
      }
      if contents.None? {
        return Rejected(Unreadable);
      }
      outcome := ReplaceStringField(contents.value, VERSION_FIELD, version);
      if outcome.Rejected? {
        return;
      }
      outcome := ReplaceStringField(outcome.contents, COMMIT_FIELD, commit);
      if outcome.Rejected? {
        return;
      }
      contents := Some(outcome.contents);
    }
  }

  /** The string that a field holds, when the field is found exactly once. */
  function ReadField(c: string, field: string): Option<string> {
    var matches := FindAll(c, field, 0);
    if |matches| != 1 then None else
      OnceMeans(c, field, matches[0]);
      Some(c[matches[0].quote + 1..matches[0].close])
  }

  // ---------------------------------------------------------------- the new values

  lemma {:induction false} VersionIsPlain(version: string)
    requires ValidVersion(version)
    ensures Plain(version) && version != VERSION_FIELD && version != COMMIT_FIELD
  {
    var parts := Text.Split(version, '.');
    VersionText(version);
    assert forall i :: 0 <= i < |version| ==> version[i] == '.' || '0' <= version[i] <= '9';
    assert version[0] != 't';
  }

  lemma {:induction false} CommitIsPlain(commit: string)
    requires ValidCommit(commit)
    ensures Plain(commit) && commit != VERSION_FIELD && commit != COMMIT_FIELD
  {
  }

  /** Digits at both ends and two dots, not next to each other, among digits. */
  ghost predicate IsVersion(v: string) {
    exists i, j :: 0 < i && i + 1 < j < |v| - 1 && DotsAt(v, i, j)
  }

  ghost predicate DotsAt(v: string, i: int, j: int) {
    forall k :: 0 <= k < |v| ==> if k == i || k == j then v[k] == '.' else '0' <= v[k] <= '9'
  }

  /** A version is three groups of digits with dots between them, and nothing else. */
  lemma {:induction false} ValidVersionExactly(v: string)
    ensures ValidVersion(v) <==> IsVersion(v)
  {
    if IsVersion(v) {
      var i, j :| 0 < i && i + 1 < j < |v| - 1 && DotsAt(v, i, j);
      SplitAtDots(v, i, j);
    }
    if ValidVersion(v) {
      var parts := Text.Split(v, '.');
      VersionText(v);
      assert DotsAt(v, |parts[0]|, |parts[0]| + 1 + |parts[1]|);
    }
  }

  lemma {:induction false} SplitAtDots(v: string, i: int, j: int)
    requires 0 < i && i + 1 < j < |v| - 1 && DotsAt(v, i, j)
    ensures Text.Split(v, '.') == [v[..i], v[i + 1..j], v[j + 1..]]
  {
    hide Text.Split;
    var rest := v[i + 1..j] + "." + v[j + 1..];
    assert v == v[..i] + "." + rest;
    SplitThree(v[..i], v[i + 1..j], v[j + 1..]);
  }

  lemma {:induction false} SplitThree(a: string, b: string, c: string)
    requires '.' !in a && '.' !in b && '.' !in c
    ensures Text.Split(a + "." + (b + "." + c), '.') == [a, b, c]
  {
    hide Text.Split;
    Text.SplitFirst(a, '.', b + "." + c);
    Text.SplitFirst(b, '.', c);
    Text.SplitFirst(c, '.', "");
  }

  lemma {:induction false} VersionText(version: string)
    requires |Text.Split(version, '.')| == 3
    ensures var parts := Text.Split(version, '.');
            version == parts[0] + ['.'] + (parts[1] + ['.'] + parts[2])
  {
    var parts := Text.Split(version, '.');
    Text.JoinSplit(version, '.');
    assert Text.Join(parts, '.') == parts[0] + ['.'] + Text.Join(parts[1..], '.');
    assert Text.Join(parts[1..], '.') == parts[1] + ['.'] + Text.Join(parts[1..][1..], '.');
  }

  /** The field stands in the text exactly once: one match, none before it and none behind it. */
  ghost predicate FieldOnce(c: string, field: string) { exists m :: Sole(c, field, m) }

  lemma {:induction false} FoundOnceExactly(c: string, field: string)
    ensures |FindAll(c, field, 0)| == 1 <==> FieldOnce(c, field)
  {
    if |FindAll(c, field, 0)| == 1 {
      OnceMeans(c, field, FindAll(c, field, 0)[0]);
    }
    if FieldOnce(c, field) {
      var m :| Sole(c, field, m);
      OnceIs(c, field, m);
    }
  }

  /** Why a recording is refused: the version is looked at first, then the commit, a 40-digit lower-case hexadecimal
      number, and then whether each field stands in the text once, the commit's after the version has been edited. */
  lemma {:induction false} RefusedExactly(c: string, version: string, commit: string)
    ensures var outcome := Record(c, version, commit);
            var hex := |commit| == 40 && forall i :: 0 <= i < 40 ==> commit[i] in "0123456789abcdef";
            && (outcome == Rejected(BadVersion) <==> !IsVersion(version))
            && (outcome == Rejected(BadCommit) <==> IsVersion(version) && !hex)
            && (outcome == Rejected(NotOnce("template_version")) <==>
                IsVersion(version) && hex && !FieldOnce(c, "template_version"))
            && (outcome.Rejected? && IsVersion(version) && hex && FieldOnce(c, "template_version") ==>
                outcome == Rejected(NotOnce("template_commit")))
  {
    hide FindAll;
    hide ValidVersion;
    hide IsVersion;
    hide FieldOnce;
    ValidVersionExactly(version);
    CommitDigits(commit);
    FieldNames();
    FoundOnceExactly(c, VERSION_FIELD);
  }

  lemma {:induction false} CommitDigits(commit: string)
    ensures ValidCommit(commit) <==> |commit| == 40 && forall i :: 0 <= i < 40 ==> commit[i] in "0123456789abcdef"
  {
    if |commit| == 40 {
      forall i | 0 <= i < 40
        ensures '0' <= commit[i] <= '9' || 'a' <= commit[i] <= 'f' <==> commit[i] in "0123456789abcdef"
      {
        HexDigit(commit[i]);
      }
    }
  }

  lemma {:induction false} HexDigit(ch: char)
    ensures '0' <= ch <= '9' || 'a' <= ch <= 'f' <==> ch in "0123456789abcdef"
  {
    var digits := "0123456789abcdef";
    if '0' <= ch <= '9' {
      assert digits[ch as int - '0' as int] == ch;
    } else if 'a' <= ch <= 'f' {
      assert digits[ch as int - 'a' as int + 10] == ch;
    }
  }

  lemma {:induction false} FieldNames()
    ensures FieldName(VERSION_FIELD) && FieldName(COMMIT_FIELD) && VERSION_FIELD != COMMIT_FIELD
  {
    assert VERSION_FIELD[9] == 'v' && COMMIT_FIELD[9] == 'c';
  }

  // ---------------------------------------------------------------- one field

  /** The growth of the text when v takes the place of the value of m. */
  function Growth(m: Match, v: string): int { |v| - (m.close - m.quote - 1) }

  function Edit(c: string, m: Match, v: string): string
    requires m.quote < m.close <= |c|
  {
    Splice(c, m.quote + 1, m.close, v)
  }

  lemma {:induction false} EditFills(c: string, field: string, m: Match, v: string)
    requires IsMatch(c, field, m) && Plain(v)
    ensures Filled(c, Edit(c, m, v), m.colon, m.quote + 1, m.close, v, Growth(m, v))
  {
    SpliceEdits(c, m.quote + 1, m.close, v);
    assert Unquoted(c[m.quote + 1..m.close]);
  }

  /** Two fields whose values start at the same quote are the same field. */
  lemma {:induction false} SameQuote(c: string, a: string, m: Match, b: string, n: Match)
    requires FieldName(a) && FieldName(b) && IsMatch(c, a, m) && IsMatch(c, b, n) && m.quote == n.quote
    ensures a == b
  {
    FieldChars(c, a, m);
    FieldChars(c, b, n);
    assert m.colon == n.colon;
    assert m.name + |a| == n.name + |b|;
    assert m.name == n.name;
    assert a == c[m.name + 1..m.name + 1 + |a|];
  }
}
