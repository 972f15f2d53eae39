/** What a recording does to the whole manifest, and exactly when it does that. */
module ManifestGuarantees {
  import opened Common
  import opened FieldPattern
  import opened Manifest

  // ---------------------------------------------------------------- two fields of one text

  /** A field that is found once, here. */
  ghost predicate Holds(c: string, field: string, m: Match) {
    FieldName(field) && IsMatch(c, field, m) && Once(c, field, m)
  }

  /** The values do not overlap. */
  ghost predicate Beside(c: string, f: Match, g: Match) {
    && f.quote < f.close < |c| && g.quote < g.close < |c|
    && (f.close <= g.quote || g.close <= f.quote)
  }

  lemma {:induction false} ValueIsHole(c: string, field: string, m: Match)
    requires IsMatch(c, field, m)
    ensures Hole(c, m.colon, m.quote + 1, m.close)
  {
    assert Unquoted(c[m.quote + 1..m.close]);
  }

  /** The second field's name starts at a quote of the first one's value. */
  predicate NamedAt(f: Match, g: Match) { g.name == f.quote || g.name == f.close }

  lemma {:induction false} NameBeside(c: string, a: string, f: Match, b: string, g: Match)
    requires FieldName(b) && IsMatch(c, a, f) && IsMatch(c, b, g) && NamedAt(f, g)
    ensures f.close < g.colon
  {
    ValueIsHole(c, a, f);
    if g.name == f.quote {
      HoleWithName(c, f.colon, f.quote + 1, f.close, b, g);
    }
  }

  lemma {:induction false} ValuesBeside(c: string, a: string, f: Match, b: string, g: Match)
    requires FieldName(a) && FieldName(b) && a != b && IsMatch(c, a, f) && IsMatch(c, b, g)
    ensures Beside(c, f, g)
  {
    if NamedAt(f, g) {
      NameBeside(c, a, f, b, g);
    } else {
      ValueIsHole(c, a, f);
      Placement(c, f.colon, f.quote + 1, f.close, b, g);
      if f.quote == g.quote {
        SameQuote(c, a, f, b, g);
      }
    }
  }

  /** The text with v and w in place of the two values, and every other byte as it was. */
  function Both(c: string, f: Match, g: Match, v: string, w: string): string
    requires f.quote < f.close < |c| && g.quote < g.close < |c|
    requires f.close <= g.quote || g.close <= f.quote
  {
    if f.close <= g.quote then c[..f.quote + 1] + v + c[f.close..g.quote + 1] + w + c[g.close..]
    else c[..g.quote + 1] + w + c[g.close..f.quote + 1] + v + c[f.close..]
  }

  /** Where a match is after the value of f has become v. */
  function MovedBy(c: string, m: Match, f: Match, v: string): Match
    requires f.quote < f.close <= |c|
  {
    MovedMatch(Edit(c, f, v), m, f.quote + 1, Growth(f, v))
  }

  /** Five pieces, and where a piece lies in them. */
  lemma {:induction false} Pieces(a: string, v: string, b: string, w: string, c: string)
    ensures var s := a + v + b + w + c;
            && s[..|a|] == a && s[|a|..|a| + |v|] == v
            && s[|a| + |v|..|a| + |v| + |b|] == b
            && s[|a| + |v| + |b|..|a| + |v| + |b| + |w|] == w
            && s[|a| + |v| + |b| + |w|..] == c
  {
  }

  lemma {:induction false} ValueKept(c: string, f: Match, g: Match, v: string)
    requires Beside(c, f, g)
    ensures var g' := MovedBy(c, g, f, v);
            g'.quote < g'.close < |Edit(c, f, v)| && Edit(c, f, v)[g'.quote + 1..g'.close] == c[g.quote + 1..g.close]
  {
    if f.close <= g.quote {
      var a, b, x, rest := c[..f.quote + 1], c[f.close..g.quote + 1], c[g.quote + 1..g.close], c[g.close..];
      assert Edit(c, f, v) == a + v + b + x + rest;
      Pieces(a, v, b, x, rest);
    } else {
      var a, b, x, rest := c[..g.quote + 1], c[g.close..f.quote + 1], c[g.quote + 1..g.close], c[f.close..];
      assert Edit(c, f, v) == a + x + b + v + rest;
      Pieces(a, x, b, v, rest);
    }
  }

  lemma {:induction false} FourthPiece(a: string, v: string, b: string, x: string, c: string, w: string)
    ensures Splice(a + v + b + x + c, |a| + |v| + |b|, |a| + |v| + |b| + |x|, w) == a + v + b + w + c
  {
    Pieces(a, v, b, x, c);
    assert (a + v + b + x + c)[..|a| + |v| + |b|] == a + v + b;
  }

  lemma {:induction false} SecondPiece(a: string, x: string, b: string, v: string, c: string, w: string)
    ensures Splice(a + x + b + v + c, |a|, |a| + |x|, w) == a + w + b + v + c
  {
    Pieces(a, x, b, v, c);
    assert (a + x + b + v + c)[|a| + |x|..] == b + v + c;
  }

  lemma {:induction false} EditsInOrder(c: string, f: Match, g: Match, v: string, w: string)
    requires Beside(c, f, g) && f.close <= g.quote
    ensures var g' := MovedBy(c, g, f, v);
            && g'.quote < g'.close < |Edit(c, f, v)|
            && Edit(Edit(c, f, v), g', w) == Both(c, f, g, v, w)
  {
    var a, b, x, rest := c[..f.quote + 1], c[f.close..g.quote + 1], c[g.quote + 1..g.close], c[g.close..];
    assert Edit(c, f, v) == a + v + b + x + rest;
    FourthPiece(a, v, b, x, rest, w);
  }

  lemma {:induction false} EditsReversed(c: string, f: Match, g: Match, v: string, w: string)
    requires Beside(c, f, g) && g.close <= f.quote
    ensures var g' := MovedBy(c, g, f, v);
            && g'.quote < g'.close < |Edit(c, f, v)|
            && Edit(Edit(c, f, v), g', w) == Both(c, f, g, v, w)
  {
    var a, b, x, rest := c[..g.quote + 1], c[g.close..f.quote + 1], c[g.quote + 1..g.close], c[f.close..];
    assert Edit(c, f, v) == a + x + b + v + rest;
    SecondPiece(a, x, b, v, rest, w);
  }

  lemma {:induction false} TwoEdits(c: string, f: Match, g: Match, v: string, w: string)
    requires Beside(c, f, g)
    ensures var g' := MovedBy(c, g, f, v);
            && g'.quote < g'.close < |Edit(c, f, v)|
            && Edit(Edit(c, f, v), g', w) == Both(c, f, g, v, w)
  {
    hide Splice;
    hide Both;
    hide MovedMatch;
    if f.close <= g.quote {
      EditsInOrder(c, f, g, v, w);
    } else {
      EditsReversed(c, f, g, v, w);
    }
  }

  lemma {:induction false} EditOnce(c: string, a: string, f: Match, v: string, b: string, g: Match)
    requires IsMatch(c, a, f) && Plain(v)
    requires FieldName(b) && Once(c, b, g) && !NamedAt(f, g) && v != b
    ensures Once(Edit(c, f, v), b, MovedBy(c, g, f, v)) && IsMatch(Edit(c, f, v), b, MovedBy(c, g, f, v))
  {
    hide Once;
    EditFills(c, a, f, v);
    OnceMoves(c, Edit(c, f, v), f.colon, f.quote + 1, f.close, v, Growth(f, v), b, g);
    OnceMatches(Edit(c, f, v), b, MovedBy(c, g, f, v));
  }

  lemma {:induction false} OnceReads(c: string, a: string, m: Match, v: string)
    requires Once(c, a, m)
    ensures IsMatch(c, a, m) && ReadField(c, a) == Some(c[m.quote + 1..m.close])
    ensures ReplaceStringField(c, a, v) == Updated(Edit(c, m, v))
  {
    OnceMeans(c, a, m);
  }

  lemma {:induction false} EditHolds(c: string, f: Match, v: string)
    requires f.quote < f.close < |c|
    ensures MovedBy(c, f, f, v).quote == f.quote && MovedBy(c, f, f, v).close == f.quote + 1 + |v| < |Edit(c, f, v)|
    ensures Edit(c, f, v)[f.quote + 1..f.quote + 1 + |v|] == v
  {
  }

  /** Editing a field's value: the field is found once again, at the same place, and holds the new value. */
  lemma {:induction false} OneField(c: string, a: string, f: Match, v: string)
    requires Holds(c, a, f) && Plain(v) && v != a
    ensures ReplaceStringField(c, a, v) == Updated(Edit(c, f, v))
    ensures Holds(Edit(c, f, v), a, MovedBy(c, f, f, v)) && ReadField(Edit(c, f, v), a) == Some(v)
  {
    OnceReads(c, a, f, v);
    EditOnce(c, a, f, v, a, f);
    EditHolds(c, f, v);
    OnceReads(Edit(c, f, v), a, MovedBy(c, f, f, v), v);
  }

  /** Editing one field's value leaves another field found once, with its value, unless that value was its name. */
  lemma {:induction false} OtherField(c: string, a: string, f: Match, v: string, b: string, g: Match)
    requires Holds(c, a, f) && Holds(c, b, g) && a != b && Plain(v) && v != b && !NamedAt(f, g)
    ensures Holds(Edit(c, f, v), b, MovedBy(c, g, f, v))
    ensures ReadField(Edit(c, f, v), b) == ReadField(c, b)
  {
    hide IsMatch;
    hide Once;
    hide ReadField;
    hide Splice;
    hide MovedMatch;
    ValuesBeside(c, a, f, b, g);
    EditOnce(c, a, f, v, b, g);
    ValueKept(c, f, g, v);
    OnceReads(c, b, g, v);
    OnceReads(Edit(c, f, v), b, MovedBy(c, g, f, v), v);
  }

  /** Neither field's name starts at a quote of the other's value: it is not that value, and it does not follow a line
      break in it. */
  ghost predicate Apart(f: Match, g: Match) { !NamedAt(f, g) && !NamedAt(g, f) }

  lemma {:induction false} ApartMoves(c: string, a: string, f: Match, b: string, g: Match, v: string)
    requires FieldName(b) && IsMatch(c, a, f) && IsMatch(c, b, g) && Apart(f, g)
    ensures Apart(MovedBy(c, f, f, v), MovedBy(c, g, f, v))
  {
    hide IsMatch;
    hide Hole;
    hide Splice;
    hide EndFrom;
    ValueIsHole(c, a, f);
    Settles(c, f.colon, f.quote + 1, f.close, b, g);
    Ordered(c, a, f);
  }

  /** Where the two values lie after both edits. */
  ghost predicate ValuesAt(f: Match, g: Match, v: string, w: string, f2: Match, g2: Match) {
    && f2.close == f2.quote + 1 + |v| && g2.close == g2.quote + 1 + |w|
    && (f.close <= g.quote ==> f2.quote == f.quote && g2.quote == f.quote + 1 + |v| + (g.quote - f.close))
    && (g.close <= f.quote ==> g2.quote == g.quote && f2.quote == g.quote + 1 + |w| + (f.quote - g.close))
  }

  lemma {:induction false} MovedValues(c: string, f: Match, g: Match, v: string, w: string)
    requires Beside(c, f, g)
    ensures var c1, f1, g1 := Edit(c, f, v), MovedBy(c, f, f, v), MovedBy(c, g, f, v);
            && g1.quote < g1.close <= |c1|
            && ValuesAt(f, g, v, w, MovedBy(c1, f1, g1, w), MovedBy(c1, g1, g1, w))
  {
    SpliceAt(c, f.quote + 1, f.close, v);
  }

  /** Two fields edited one after the other: each reads back its new value, and nothing else changes. */
  lemma {:induction false} BothFields(c: string, a: string, f: Match, v: string, b: string, g: Match, w: string)
    returns (f2: Match, g2: Match)
    requires Holds(c, a, f) && Holds(c, b, g) && a != b && Apart(f, g)
    requires Plain(v) && Plain(w) && v != a && v != b && w != a && w != b
    ensures Beside(c, f, g)
    ensures var c2 := Both(c, f, g, v, w);
            && ReplaceBoth(c, a, v, b, w) == Updated(c2) && ReadField(c2, a) == Some(v) && ReadField(c2, b) == Some(w)
            && Holds(c2, a, f2) && Holds(c2, b, g2) && Apart(f2, g2) && ValuesAt(f, g, v, w, f2, g2)
  {
    hide IsMatch;
    hide Once;
    hide ReadField;
    hide Splice;
    hide MovedMatch;
    hide Both;
    hide ReplaceStringField;
    hide ValuesAt;
    ValuesBeside(c, a, f, b, g);
    var c1, f1, g1 := Edit(c, f, v), MovedBy(c, f, f, v), MovedBy(c, g, f, v);
    OneField(c, a, f, v);
    OtherField(c, a, f, v, b, g);
    ApartMoves(c, a, f, b, g, v);
    MovedValues(c, f, g, v, w);
    f2, g2 := MovedBy(c1, f1, g1, w), MovedBy(c1, g1, g1, w);
    OneField(c1, b, g1, w);
    OtherField(c1, b, g1, w, a, f1);
    ApartMoves(c1, b, g1, a, f1, w);
    TwoEdits(c, f, g, v, w);
  }

  // ---------------------------------------------------------------- exactly when

  /** Two values in holes, the second one's colon behind the first: what the second edit fills is a hole too. */
  ghost predicate Holes(c: string, f: Match, g: Match) {
    Hole(c, f.colon, f.quote + 1, f.close) && Hole(c, g.colon, g.quote + 1, g.close) && f.close < g.colon
  }

  lemma {:induction false} FirstFills(c: string, f: Match, v: string)
    requires Hole(c, f.colon, f.quote + 1, f.close) && Plain(v)
    ensures Filled(c, Edit(c, f, v), f.colon, f.quote + 1, f.close, v, Growth(f, v))
  {
    SpliceEdits(c, f.quote + 1, f.close, v);
  }

  lemma {:induction false} SecondFills(c: string, f: Match, v: string, g: Match, w: string)
    requires Holes(c, f, g) && Plain(v) && Plain(w)
    ensures var c1, g1 := Edit(c, f, v), MovedBy(c, g, f, v);
            && g1.quote < g1.close < |c1|
            && Filled(c1, Edit(c1, g1, w), g1.colon, g1.quote + 1, g1.close, w, Growth(g1, w))
  {
    hide Splice;
    SpliceEdits(c, f.quote + 1, f.close, v);
    HoleMoves(c, Edit(c, f, v), f.quote + 1, f.close, v, Growth(f, v), g.colon, g.quote + 1, g.close);
    FirstFills(Edit(c, f, v), MovedBy(c, g, f, v), w);
  }

  /** A match of the twice edited text would come from one of the text whose name starts at no quote of either value. */
  lemma {:induction false} TwiceBefore(c: string, f: Match, v: string, b: string, g: Match, w: string, m2: Match)
    returns (m: Match)
    requires Holes(c, f, g) && Beside(c, f, g)
    requires FieldName(b) && Plain(v) && Plain(w) && v != b && w != b
    requires IsMatch(Both(c, f, g, v, w), b, m2)
    ensures IsMatch(c, b, m) && !NamedAt(f, m) && !NamedAt(g, m)
  {
    hide IsMatch;
    hide Both;
    var c1, g1 := Edit(c, f, v), MovedBy(c, g, f, v);
    TwoEdits(c, f, g, v, w);
    SecondFills(c, f, v, g, w);
    var m1 := MatchBefore(c1, Edit(c1, g1, w), g1.colon, g1.quote + 1, g1.close, w, Growth(g1, w), b, m2);
    FirstFills(c, f, v);
    m := MatchBefore(c, c1, f.colon, f.quote + 1, f.close, v, Growth(f, v), b, m1);
    NotNamedAt(c, f, g, v, m);
  }

  /** What is not named at a value after an edit further up was not named at it before. */
  lemma {:induction false} NotNamedAt(c: string, f: Match, g: Match, v: string, m: Match)
    requires f.quote < f.close <= |c| && f.close <= g.quote < g.close
    requires !NamedAt(MovedBy(c, g, f, v), MovedBy(c, m, f, v))
    ensures !NamedAt(g, m)
  {
  }

  /** When the second field's name starts at a quote of the first one's value, no match of the second is left after both
      edits. */
  lemma {:induction false} NameLost(c: string, a: string, f: Match, v: string, b: string, g: Match,
                                    w: string, m2: Match)
    requires Holds(c, a, f) && Holds(c, b, g) && a != b && NamedAt(f, g) && Beside(c, f, g)
    requires Plain(v) && Plain(w) && v != b && w != b
    ensures !IsMatch(Both(c, f, g, v, w), b, m2)
  {
    hide IsMatch;
    hide Once;
    hide Both;
    hide Hole;
    NameBeside(c, a, f, b, g);
    if IsMatch(Both(c, f, g, v, w), b, m2) {
      ValueIsHole(c, a, f);
      ValueIsHole(c, b, g);
      var m := TwiceBefore(c, f, v, b, g, w, m2);
      OnceMeans(c, b, g);
      StartsInside(c, b, g, m);
      InnerStart(c, b, g, m);
    }
  }

  lemma {:induction false} NoMatchNoField(c: string, field: string)
    requires forall m :: !IsMatch(c, field, m)
    ensures ReadField(c, field) == None
  {
    FirstIsNone(c, field, 0);
  }

  /** Recording both fields does what it should: exactly the two values change, and both read back. */
  ghost predicate RecordedWell(c: string, f: Match, g: Match, version: string, commit: string)
    requires Beside(c, f, g)
  {
    var c2 := Both(c, f, g, version, commit);
    && Record(c, version, commit) == Updated(c2)
    && ReadField(c2, VERSION_FIELD) == Some(version) && ReadField(c2, COMMIT_FIELD) == Some(commit)
  }

  /** For a text with each field once, a recording changes exactly the two values and reads back, exactly when neither
      field's name starts at a quote of the other's value; and then the order of the two edits makes no difference. */
  lemma {:induction false} RecordedExactly(c: string, f: Match, g: Match, version: string, commit: string)
    requires ValidVersion(version) && ValidCommit(commit)
    requires Holds(c, VERSION_FIELD, f) && Holds(c, COMMIT_FIELD, g)
    ensures Beside(c, f, g) && (RecordedWell(c, f, g, version, commit) <==> Apart(f, g))
    ensures Apart(f, g) ==> ReplaceBoth(c, COMMIT_FIELD, commit, VERSION_FIELD, version) == Record(c, version, commit)
  {
    VersionIsPlain(version);
    CommitIsPlain(commit);
    FieldNames();
    ValuesBeside(c, VERSION_FIELD, f, COMMIT_FIELD, g);
    if Apart(f, g) {
      var f2, g2 := BothFields(c, VERSION_FIELD, f, version, COMMIT_FIELD, g, commit);
      g2, f2 := BothFields(c, COMMIT_FIELD, g, commit, VERSION_FIELD, f, version);
    } else if NamedAt(f, g) {
      forall m ensures !IsMatch(Both(c, f, g, version, commit), COMMIT_FIELD, m) {
        NameLost(c, VERSION_FIELD, f, version, COMMIT_FIELD, g, commit, m);
      }
      NoMatchNoField(Both(c, f, g, version, commit), COMMIT_FIELD);
    } else {
      forall m ensures !IsMatch(Both(c, g, f, commit, version), VERSION_FIELD, m) {
        NameLost(c, COMMIT_FIELD, g, commit, VERSION_FIELD, f, version, m);
      }
      NoMatchNoField(Both(c, g, f, commit, version), VERSION_FIELD);
      assert Both(c, g, f, commit, version) == Both(c, f, g, version, commit);
    }
  }

  lemma {:induction false} BothAgain(c: string, f: Match, g: Match, v: string,
                                     w: string, f2: Match, g2: Match, v2: string, w2: string)
    requires Beside(c, f, g) && ValuesAt(f, g, v, w, f2, g2)
    ensures Beside(Both(c, f, g, v, w), f2, g2) && Both(Both(c, f, g, v, w), f2, g2, v2, w2) == Both(c, f, g, v2, w2)
  {
    if f.close <= g.quote {
      PiecesAgain(c[..f.quote + 1], v, c[f.close..g.quote + 1], w, c[g.close..], f2, g2, v2, w2);
    } else {
      PiecesAgain(c[..g.quote + 1], w, c[g.close..f.quote + 1], v, c[f.close..], g2, f2, w2, v2);
    }
  }

  lemma {:induction false} PiecesAgain(a: string, v: string, b: string, w: string, c: string, f: Match,
                                       g: Match, v2: string, w2: string)
    requires f.quote + 1 == |a| && f.close == |a| + |v| && c != "" && b != ""
    requires g.quote + 1 == |a| + |v| + |b| && g.close == |a| + |v| + |b| + |w|
    ensures Beside(a + v + b + w + c, f, g)
    ensures Both(a + v + b + w + c, f, g, v2, w2) == a + v2 + b + w2 + c == Both(a + v + b + w + c, g, f, w2, v2)
  {
    Pieces(a, v, b, w, c);
  }

  /** A second recording leaves what it would have left had it been the only one. */
  lemma {:induction false} LastRecordingWins(c: string, f: Match, g: Match, v: string,
                                             w: string, v2: string, w2: string)
    requires ValidVersion(v) && ValidCommit(w) && ValidVersion(v2) && ValidCommit(w2)
    requires Holds(c, VERSION_FIELD, f) && Holds(c, COMMIT_FIELD, g) && Apart(f, g)
    ensures Record(c, v, w).Updated? && Record(Record(c, v, w).contents, v2, w2) == Record(c, v2, w2)
  {
    hide IsMatch;
    hide Once;
    hide ReadField;
    hide ReplaceBoth;
    hide Both;
    hide MovedMatch;
    VersionIsPlain(v);
    CommitIsPlain(w);
    FieldNames();
    RecordedExactly(c, f, g, v, w);
    RecordedExactly(c, f, g, v2, w2);
    var f2, g2 := BothFields(c, VERSION_FIELD, f, v, COMMIT_FIELD, g, w);
    RecordedExactly(Both(c, f, g, v, w), f2, g2, v2, w2);
    BothAgain(c, f, g, v, w, f2, g2, v2, w2);
  }

  // ---------------------------------------------------------------- when a recording succeeds

  ghost predicate FoundOnce(c: string, field: string) { |FindAll(c, field, 0)| == 1 }

  /** If the version field is found once, no match of the commit field has its name at a quote of its value. */
  ghost predicate Ordinary(c: string) {
    forall f :: Once(c, VERSION_FIELD, f) && IsMatch(c, VERSION_FIELD, f) ==> NamesNoField(c, f, COMMIT_FIELD)
  }

  ghost predicate NamesNoField(c: string, f: Match, field: string) {
    forall g :: IsMatch(c, field, g) ==> !NamedAt(f, g)
  }

  /** Editing the version does not change whether the commit field is found once. */
  lemma {:induction false} CommitStillOnce(c: string, f: Match, v: string)
    requires Holds(c, VERSION_FIELD, f) && NamesNoField(c, f, COMMIT_FIELD) && ValidVersion(v)
    ensures FoundOnce(Edit(c, f, v), COMMIT_FIELD) <==> FoundOnce(c, COMMIT_FIELD)
  {
    hide IsMatch;
    hide Splice;
    VersionIsPlain(v);
    FieldNames();
    EditFills(c, VERSION_FIELD, f, v);
    var k, o, e, d := f.colon, f.quote + 1, f.close, Growth(f, v);
    var c1 := Edit(c, f, v);
    if FoundOnce(c, COMMIT_FIELD) {
      var g := OnceOf(c, COMMIT_FIELD);
      OnceMoves(c, c1, k, o, e, v, d, COMMIT_FIELD, g);
    }
    if FoundOnce(c1, COMMIT_FIELD) {
      var g1 := OnceOf(c1, COMMIT_FIELD);
      OnceMovedBack(c, c1, k, o, e, v, d, COMMIT_FIELD, g1);
    }
  }

  lemma {:induction false} OnceOf(c: string, field: string) returns (g: Match)
    requires FoundOnce(c, field)
    ensures Once(c, field, g) && IsMatch(c, field, g)
  {
    g := FindAll(c, field, 0)[0];
    OnceMeans(c, field, g);
  }

  /** A recording succeeds exactly when version and commit are well formed and each field is found exactly once. */
  lemma {:induction false} SucceedsExactly(c: string, version: string, commit: string)
    requires Ordinary(c)
    ensures Record(c, version, commit).Updated? <==>
            ValidVersion(version) && ValidCommit(commit) && FoundOnce(c, VERSION_FIELD) && FoundOnce(c, COMMIT_FIELD)
  {
    if ValidVersion(version) && ValidCommit(commit) && FoundOnce(c, VERSION_FIELD) {
      var f := OnceOf(c, VERSION_FIELD);
      OnceReads(c, VERSION_FIELD, f, version);
      FieldNames();
      CommitStillOnce(c, f, version);
    }
  }

  // ---------------------------------------------------------------- a manifest that is not edited well

  /** A manifest of two lines whose commit field has the version field's name for a value. */
  function Overlapping(): string { "\"" + COMMIT_FIELD + "\":\n\"" + VERSION_FIELD + "\": \"0.1.0\"" }

  lemma {:induction false} OverlappingMatches(c: string, f: Match, g: Match)
    requires c == Overlapping() && f == Match(19, 19, 37, 39, 45, 46) && g == Match(0, 0, 17, 19, 36, 46)
    ensures IsMatch(c, VERSION_FIELD, f) && IsMatch(c, COMMIT_FIELD, g)
  {
  }

  /** What of a two-line text decides where a match can start: its one line break, the quote that each line starts with,
      and the tenth letter of the name behind it. */
  ghost predicate TwoLines(c: string, size: nat, second: nat, first: char, other: char) {
    && |c| == size && 10 < second && second + 10 < size && first != other
    && (forall i :: 0 <= i < size ==> (c[i] == '\n' <==> i == second - 1))
    && c[0] == '"' && c[10] == first && c[second] == '"' && c[second + 10] == other
  }

  lemma {:induction false} BothAreTwoLines()
    ensures TwoLines(Overlapping(), 46, 19, 'c', 'v') && TwoLines(Spanning(), 49, 25, 'v', 'c')
  {
  }

  lemma {:induction false} LineOf(c: string, size: nat, second: nat, first: char, other: char, m: Match, field: string)
    requires TwoLines(c, size, second, first, other) && IsMatch(c, field, m) && |field| > 9
    ensures field[9] == first ==> m.start == 0
    ensures field[9] == other ==> m.start == second
  {
    assert m.start == 0 || m.start == second;
    assert m.name == m.start;
    assert field[9] == c[m.name + 1..m.name + 1 + |field|][9] == c[m.name + 10];
  }

  lemma {:induction false} OverlappingHolds(c: string, f: Match, g: Match)
    requires c == Overlapping() && f == Match(19, 19, 37, 39, 45, 46) && g == Match(0, 0, 17, 19, 36, 46)
    ensures Holds(c, VERSION_FIELD, f) && Holds(c, COMMIT_FIELD, g)
  {
    OverlappingMatches(c, f, g);
    FieldNames();
    BothAreTwoLines();
    forall m | IsMatch(c, VERSION_FIELD, m) ensures m.start == 19 {
      LineOf(c, 46, 19, 'c', 'v', m, VERSION_FIELD);
    }
    forall m | IsMatch(c, COMMIT_FIELD, m) ensures m.start == 0 {
      LineOf(c, 46, 19, 'c', 'v', m, COMMIT_FIELD);
    }
    OnceIs(c, VERSION_FIELD, f);
    OnceIs(c, COMMIT_FIELD, g);
  }

  /** A text that is not JSON, but that the pattern reads: each field is found once, and still no
      recording changes just the two values and reads back: the commit replaces the version field's name. */
  lemma {:induction false} OverlappingFails(version: string, commit: string, f: Match, g: Match)
    requires ValidVersion(version) && ValidCommit(commit)
    requires f == Match(19, 19, 37, 39, 45, 46) && g == Match(0, 0, 17, 19, 36, 46)
    ensures Holds(Overlapping(), VERSION_FIELD, f) && Holds(Overlapping(), COMMIT_FIELD, g)
    ensures Beside(Overlapping(), f, g) && !RecordedWell(Overlapping(), f, g, version, commit)
  {
    OverlappingHolds(Overlapping(), f, g);
    RecordedExactly(Overlapping(), f, g, version, commit);
  }

  /** Two lines on which the version's value goes over the line break to the quote before the commit field's name. */
  function Spanning(): string { "\"" + VERSION_FIELD + "\": \"abc\n\"" + COMMIT_FIELD + "\": \"def\"" }

  lemma {:induction false} SpanningVersion(c: string, f: Match)
    requires c == Spanning() && f == Match(0, 0, 18, 20, 25, 49)
    ensures IsMatch(c, VERSION_FIELD, f)
  {
  }

  lemma {:induction false} SpanningCommit(c: string, g: Match)
    requires c == Spanning() && g == Match(25, 25, 42, 44, 48, 49)
    ensures IsMatch(c, COMMIT_FIELD, g)
  {
  }

  lemma {:induction false} SpanningHolds(c: string, f: Match, g: Match)
    requires c == Spanning() && f == Match(0, 0, 18, 20, 25, 49) && g == Match(25, 25, 42, 44, 48, 49)
    ensures Holds(c, VERSION_FIELD, f) && Holds(c, COMMIT_FIELD, g)
  {
    SpanningVersion(c, f);
    SpanningCommit(c, g);
    FieldNames();
    BothAreTwoLines();
    forall m | IsMatch(c, VERSION_FIELD, m) ensures m.start == 0 {
      LineOf(c, 49, 25, 'v', 'c', m, VERSION_FIELD);
    }
    forall m | IsMatch(c, COMMIT_FIELD, m) ensures m.start == 25 {
      LineOf(c, 49, 25, 'v', 'c', m, COMMIT_FIELD);
    }
    OnceIs(c, VERSION_FIELD, f);
    OnceIs(c, COMMIT_FIELD, g);
  }

  /** Here neither field's name is the other's value, and still no recording edits the text well: the edited version
      takes away the line break before the commit field. */
  lemma {:induction false} SpanningFails(version: string, commit: string, f: Match, g: Match)
    requires ValidVersion(version) && ValidCommit(commit)
    requires f == Match(0, 0, 18, 20, 25, 49) && g == Match(25, 25, 42, 44, 48, 49)
    ensures Holds(Spanning(), VERSION_FIELD, f) && Holds(Spanning(), COMMIT_FIELD, g)
    ensures g.name != f.quote && f.name != g.quote
    ensures Beside(Spanning(), f, g) && !RecordedWell(Spanning(), f, g, version, commit)
  {
    SpanningHolds(Spanning(), f, g);
    RecordedExactly(Spanning(), f, g, version, commit);
  }
}
