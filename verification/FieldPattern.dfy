/** The pattern that finds one string field of the manifest, and what an edit of another string does to its matches. */
module FieldPattern {
  import opened Common

  /** Where one match lies: its start, the quote before the field name, the colon, the quotes around the value, its
      end. */
  datatype Match = Match(start: nat, name: nat, colon: nat, quote: nat, close: nat, end: nat)

  /** [[:space:]] */
  predicate IsSpace(ch: char) { ch == ' ' || '\t' <= ch <= '\r' }

  predicate LineStart(c: string, i: int) { i == 0 || (0 < i <= |c| && c[i - 1] == '\n') }

  predicate LineEnd(c: string, i: int) { i == |c| || (0 <= i < |c| && c[i] == '\n') }

  predicate Spaces(c: string, from: nat, to: nat)
    requires to <= |c|
  {
    forall i :: from <= i < to ==> IsSpace(c[i])
  }

  predicate Free(c: string, from: nat, to: nat, ch: char)
    requires to <= |c|
  {
    forall i :: from <= i < to ==> c[i] != ch
  }

  predicate Quoted(c: string, field: string, at: nat)
    requires at + |field| + 2 <= |c|
  {
    c[at] == '"' && c[at + 1..at + 1 + |field|] == field && c[at + 1 + |field|] == '"'
  }

  /** From the start of a line to the quote before the value. */
  predicate Head(c: string, field: string, m: Match) {
    && m.start <= m.name && m.name + |field| + 2 <= m.colon < m.quote < |c|
    && LineStart(c, m.start) && Spaces(c, m.start, m.name) && Quoted(c, field, m.name)
    && Spaces(c, m.name + |field| + 2, m.colon) && c[m.colon] == ':'
    && Spaces(c, m.colon + 1, m.quote) && c[m.quote] == '"'
  }

  /** From the quote behind the value to the end of its line. */
  predicate Tail(c: string, close: nat, end: nat) {
    close < end <= |c| && c[close] == '"' && Free(c, close + 1, end, '\n') && LineEnd(c, end)
  }

  /** What the multi-line pattern ^(space* "field" space* : space* ")[^"]*(".*)$ says of a match. */
  predicate IsMatch(c: string, field: string, m: Match) {
    && Head(c, field, m) && m.quote < m.close && Tail(c, m.close, m.end)
    && Free(c, m.quote + 1, m.close, '"')
  }

  // ---------------------------------------------------------------- finding matches

  function SkipSpaces(c: string, i: nat): (j: nat)
    requires i <= |c|
    ensures i <= j <= |c| && Spaces(c, i, j) && (j < |c| ==> !IsSpace(c[j]))
    decreases |c| - i
  {
    if i < |c| && IsSpace(c[i]) then SkipSpaces(c, i + 1) else i
  }

  function Next(c: string, i: nat, ch: char): (j: nat)
    requires i <= |c|
    ensures i <= j <= |c| && Free(c, i, j, ch) && (j < |c| ==> c[j] == ch)
    decreases |c| - i
  {
    if i < |c| && c[i] != ch then Next(c, i + 1, ch) else i
  }

  /** The match that starts here, if there is one: the pattern leaves no choice. */
  function MatchAt(c: string, field: string, start: nat): Option<Match>
    requires start <= |c|
  {
    if !LineStart(c, start) then None else
      var name := SkipSpaces(c, start);
      if name + |field| + 2 > |c| || !Quoted(c, field, name) then None else
        var colon := SkipSpaces(c, name + |field| + 2);
        if colon == |c| || c[colon] != ':' then None else
          var quote := SkipSpaces(c, colon + 1);
          if quote == |c| || c[quote] != '"' then None else
            var close := Next(c, quote + 1, '"');
            if close == |c| then None else Some(Match(start, name, colon, quote, close, Next(c, close + 1, '\n')))
  }

  function First(c: string, field: string, from: nat): Option<Match>
    requires from <= |c|
    decreases |c| - from
  {
    if MatchAt(c, field, from).Some? then MatchAt(c, field, from)
    else if from < |c| then First(c, field, from + 1)
    else None
  }

  /** FindAll: leftmost matches, none overlapping the one before it. */
  function FindAll(c: string, field: string, from: nat): seq<Match>
    requires from <= |c|
    decreases |c| - from
  {
    FirstExact(c, field, from);
    match First(c, field, from)
    case None => []
    case Some(m) => [m] + FindAll(c, field, m.end)
  }

  lemma {:induction false} MatchAtExact(c: string, field: string, start: nat, m: Match)
    requires start <= |c|
    ensures MatchAt(c, field, start) == Some(m) <==> IsMatch(c, field, m) && m.start == start
  {
    var found := MatchAt(c, field, start);
    if found.Some? {
      FoundIsMatch(c, field, start);
    }
    if IsMatch(c, field, m) && m.start == start {
      MatchIsFound(c, field, m);
    }
  }

  lemma {:induction false} FoundIsMatch(c: string, field: string, start: nat)
    requires start <= |c| && MatchAt(c, field, start).Some?
    ensures IsMatch(c, field, MatchAt(c, field, start).value) && MatchAt(c, field, start).value.start == start
  {
  }

  lemma {:induction false} SkipStops(c: string, i: nat, j: nat)
    requires i <= j < |c| && Spaces(c, i, j) && !IsSpace(c[j])
    ensures SkipSpaces(c, i) == j
  {
  }

  lemma {:induction false} NextStops(c: string, i: nat, j: nat, ch: char)
    requires i <= j <= |c| && Free(c, i, j, ch) && (j < |c| ==> c[j] == ch)
    ensures Next(c, i, ch) == j
  {
  }

  /** Where the scanner stops in a match. */
  lemma {:induction false} ScansFind(c: string, field: string, m: Match)
    requires IsMatch(c, field, m)
    ensures SkipSpaces(c, m.start) == m.name && SkipSpaces(c, m.name + |field| + 2) == m.colon
    ensures SkipSpaces(c, m.colon + 1) == m.quote && Next(c, m.quote + 1, '"') == m.close
    ensures Next(c, m.close + 1, '\n') == m.end
  {
    SkipStops(c, m.start, m.name);
    SkipStops(c, m.name + |field| + 2, m.colon);
    SkipStops(c, m.colon + 1, m.quote);
    NextStops(c, m.quote + 1, m.close, '"');
    NextStops(c, m.close + 1, m.end, '\n');
  }

  lemma {:induction false} MatchIsFound(c: string, field: string, m: Match)
    requires IsMatch(c, field, m)
    ensures MatchAt(c, field, m.start) == Some(m)
  {
    hide SkipSpaces;
    hide Next;
    hide Spaces;
    hide Free;
    hide Quoted;
    ScansFind(c, field, m);
  }

  ghost predicate NoMatch(c: string, field: string, from: nat, to: int) {
    forall m :: IsMatch(c, field, m) && from <= m.start ==> to <= m.start
  }

  /** First finds the leftmost match from a position on. */
  lemma {:induction false} FirstExact(c: string, field: string, from: nat)
    requires from <= |c|
    ensures match First(c, field, from)
            case Some(m) => IsMatch(c, field, m) && from <= m.start && NoMatch(c, field, from, m.start)
            case None => NoMatch(c, field, from, |c| + 1)
    decreases |c| - from
  {
    forall m | IsMatch(c, field, m) && m.start == from ensures MatchAt(c, field, from) == Some(m) {
      MatchIsFound(c, field, m);
    }
    if MatchAt(c, field, from).Some? {
      FoundIsMatch(c, field, from);
    } else if from < |c| {
      FirstExact(c, field, from + 1);
    }
  }

  /** Only one match starts at a position. */
  lemma {:induction false} MatchUnique(c: string, field: string, a: Match, b: Match)
    requires IsMatch(c, field, a) && IsMatch(c, field, b) && a.start == b.start
    ensures a == b
  {
    MatchIsFound(c, field, a);
    MatchIsFound(c, field, b);
  }

  lemma {:induction false} FirstIs(c: string, field: string, from: nat, m: Match)
    requires from <= m.start && IsMatch(c, field, m) && NoMatch(c, field, from, m.start)
    ensures First(c, field, from) == Some(m)
  {
    FirstExact(c, field, from);
    MatchUnique(c, field, m, First(c, field, from).value);
  }

  lemma {:induction false} FirstIsNone(c: string, field: string, from: nat)
    requires from <= |c| && NoMatch(c, field, from, |c| + 1)
    ensures First(c, field, from) == None
  {
    FirstExact(c, field, from);
  }

  /** The field is found exactly once, here. */
  ghost predicate Once(c: string, field: string, m: Match) {
    FindAll(c, field, 0) == [m]
  }

  /** One match, and no other before its start or behind its end. */
  ghost predicate Sole(c: string, field: string, m: Match) {
    IsMatch(c, field, m) && NoMatch(c, field, 0, m.start) && NoMatch(c, field, m.end, |c| + 1)
  }

  lemma {:induction false} OnceIs(c: string, field: string, m: Match)
    requires Sole(c, field, m)
    ensures Once(c, field, m)
  {
    FirstIs(c, field, 0, m);
    FirstIsNone(c, field, m.end);
  }

  lemma {:induction false} OnceMeans(c: string, field: string, m: Match)
    requires Once(c, field, m)
    ensures Sole(c, field, m)
  {
    FirstExact(c, field, 0);
    var first := First(c, field, 0).value;
    assert FindAll(c, field, 0)[0] == first;
    FirstExact(c, field, m.end);
    assert FindAll(c, field, 0)[1..] == FindAll(c, field, m.end);
  }

  // ---------------------------------------------------------------- editing one string

  ghost predicate Unquoted(v: string) { forall i :: 0 <= i < |v| ==> v[i] != '"' }

  /** Without quotes, line breaks and "$": what the replacement template takes as it stands. */
  ghost predicate Plain(v: string) { forall i :: 0 <= i < |v| ==> v[i] != '"' && v[i] != '\n' && v[i] != '$' }

  ghost predicate FieldName(field: string) {
    field != "" && forall i :: 0 <= i < |field| ==> field[i] != '"' && field[i] != ':' && !IsSpace(field[i])
  }

  /** The text between o and e is a quoted string, of any number of lines, after a colon at k. */
  ghost predicate Hole(c: string, k: nat, o: nat, e: nat) {
    && k < o - 1 && o <= e < |c|
    && c[k] == ':' && Spaces(c, k + 1, o - 1) && c[o - 1] == '"' && c[e] == '"'
    && Unquoted(c[o..e])
  }

  function Splice(c: string, o: nat, e: nat, v: string): string
    requires o <= e <= |c|
  {
    c[..o] + v + c[e..]
  }

  /** Where a position goes when the text behind o grows by d. */
  function Moved(i: nat, o: nat, d: int): nat { if i < o || i + d < 0 then i else i + d }

  /** Where a line that goes through a position ends. */
  function EndFrom(c: string, i: nat): nat { if i <= |c| then Next(c, i, '\n') else i }

  /** A match in the edited text c': its pieces have moved, and it ends where its last line ends now. */
  function MovedMatch(c': string, m: Match, o: nat, d: int): Match {
    Match(Moved(m.start, o, d), Moved(m.name, o, d), Moved(m.colon, o, d), Moved(m.quote, o, d), Moved(m.close, o, d),
          EndFrom(c', Moved(m.close, o, d) + 1))
  }

  lemma {:induction false} HoleChars(c: string, k: nat, o: nat, e: nat)
    requires Hole(c, k, o, e)
    ensures forall i :: o <= i < e ==> c[i] != '"'
  {
    assert forall i :: o <= i < e ==> c[i] == c[o..e][i - o];
  }

  lemma {:induction false} FieldChars(c: string, field: string, m: Match)
    requires IsMatch(c, field, m) && FieldName(field)
    ensures forall i :: m.name < i <= m.name + |field| ==> c[i] != '"' && c[i] != ':' && !IsSpace(c[i])
  {
    assert forall i :: m.name < i <= m.name + |field| ==> c[i] == c[m.name + 1..m.name + 1 + |field|][i - m.name - 1];
  }

  /** Against a match, a hole lies before it, is its value, or lies behind its value; unless the name of the match
      starts at one of the hole's two quotes. */
  lemma {:induction false} Placement(c: string, k: nat, o: nat, e: nat, field: string, m: Match)
    requires Hole(c, k, o, e) && FieldName(field) && IsMatch(c, field, m) && m.name != o - 1 && m.name != e
    ensures e < m.start || (m.quote == o - 1 && m.close == e) || m.close < o
  {
    HoleChars(c, k, o, e);
    FieldChars(c, field, m);
    assert o - 1 != m.name + |field| + 1 by {
      assert c[m.name + |field|] != ':' && !IsSpace(c[m.name + |field|]);
    }
  }

  /** A name that starts at the hole's first quote is what the hole holds. */
  lemma {:induction false} HoleWithName(c: string, k: nat, o: nat, e: nat, field: string, m: Match)
    requires Hole(c, k, o, e) && FieldName(field) && IsMatch(c, field, m) && m.name == o - 1
    ensures c[o..e] == field && e == m.name + 1 + |field|
  {
    HoleChars(c, k, o, e);
    FieldChars(c, field, m);
    assert e == m.name + 1 + |field|;
  }

  /** A name that starts at the hole's second quote is at the start of a line, which the hole breaks. */
  lemma {:induction false} HoleBeforeName(c: string, k: nat, o: nat, e: nat, field: string, m: Match)
    requires Hole(c, k, o, e) && FieldName(field) && IsMatch(c, field, m) && m.name == e
    ensures exists i :: o <= i < e && c[i] == '\n'
  {
    HoleChars(c, k, o, e);
    assert o <= m.start;
    assert o <= m.start - 1 < e && c[m.start - 1] == '\n';
  }

  // ---------------------------------------------------------------- what an edit does to the matches

  /** Characters outside the hole stay, at their moved place. */
  lemma {:induction false} SpliceAt(c: string, o: nat, e: nat, v: string)
    requires o <= e <= |c|
    ensures var c' := Splice(c, o, e, v);
            && |c'| == |c| + |v| - (e - o)
            && (forall i :: 0 <= i < o ==> c'[i] == c[i])
            && (forall i :: o <= i < o + |v| ==> c'[i] == v[i - o])
            && (forall i :: o + |v| <= i < |c'| ==> c'[i] == c[i - |v| + (e - o)])
  {
  }

  /** The text from one position to another is found again d positions further on. */
  ghost predicate Agree(c: string, c': string, from: int, to: int, d: int) {
    && 0 <= from <= to <= |c| && 0 <= from + d && to + d <= |c'|
    && forall i :: from <= i < to ==> Same(c, c', i, d)
  }

  ghost predicate Same(c: string, c': string, i: int, d: int) {
    0 <= i < |c| && 0 <= i + d < |c'| && c'[i + d] == c[i]
  }

  lemma {:induction false} SpacesMove(c: string, c': string, from: nat, to: nat, d: int)
    requires Agree(c, c', from, to, d) && Spaces(c, from, to)
    ensures Spaces(c', from + d, to + d)
  {
    forall i | from + d <= i < to + d ensures IsSpace(c'[i]) {
      assert Same(c, c', i - d, d);
    }
  }

  lemma {:induction false} FreeMoves(c: string, c': string, from: nat, to: nat, ch: char, d: int)
    requires Agree(c, c', from, to, d) && Free(c, from, to, ch)
    ensures Free(c', from + d, to + d, ch)
  {
    forall i | from + d <= i < to + d ensures c'[i] != ch {
      assert Same(c, c', i - d, d);
    }
  }

  lemma {:induction false} QuotedMoves(c: string, c': string, field: string, at: nat, d: int)
    requires at + |field| + 2 <= |c| && Agree(c, c', at, at + |field| + 2, d) && Quoted(c, field, at)
    ensures Quoted(c', field, at + d)
  {
    forall i | 0 <= i < |field| ensures c'[at + d + 1 + i] == field[i] {
      assert Same(c, c', at + 1 + i, d);
      assert c[at + 1 + i] == c[at + 1..at + 1 + |field|][i];
    }
    assert Same(c, c', at, d) && Same(c, c', at + 1 + |field|, d);
    assert c'[at + d + 1..at + d + 1 + |field|] == field;
  }

  lemma {:induction false} HeadMoves(c: string, c': string, field: string, m: Match, m': Match, d: int)
    requires Head(c, field, m) && Agree(c, c', if m.start == 0 then 0 else m.start - 1, m.quote + 1, d)
    requires m.start == 0 ==> d == 0
    requires m'.start == m.start + d && m'.name == m.name + d && m'.colon == m.colon + d && m'.quote == m.quote + d
    ensures Head(c', field, m')
  {
    SpacesMove(c, c', m.start, m.name, d);
    QuotedMoves(c, c', field, m.name, d);
    SpacesMove(c, c', m.name + |field| + 2, m.colon, d);
    SpacesMove(c, c', m.colon + 1, m.quote, d);
    assert Same(c, c', m.colon, d) && Same(c, c', m.quote, d);
    assert m.start > 0 ==> Same(c, c', m.start - 1, d);
  }

  /** c' is c with the text between o and e replaced by v. */
  ghost predicate Edited(c: string, c': string, o: nat, e: nat, v: string, d: int) {
    && o <= e < |c| && d == |v| - (e - o) && |c'| == |c| + d
    && Agree(c, c', 0, o, 0) && Agree(c, c', e, |c|, d)
    && (forall i :: o <= i < o + |v| ==> c'[i] == v[i - o])
  }

  lemma {:induction false} SpliceEdits(c: string, o: nat, e: nat, v: string)
    requires o <= e < |c|
    ensures Edited(c, Splice(c, o, e, v), o, e, v, |v| - (e - o))
  {
    SpliceAt(c, o, e, v);
  }

  /** What is known about the edit of a hole. */
  ghost predicate Filled(c: string, c': string, k: nat, o: nat, e: nat, v: string, d: int) {
    Edited(c, c', o, e, v, d) && Hole(c, k, o, e) && Unquoted(v)
  }

  /** Every match whose name does not start at one of the hole's quotes is a match of the edited text, at its moved
      place. */
  lemma {:induction false} MatchMoves(c: string, c': string, k: nat, o: nat, e: nat, v: string, d: int, field: string,
                                      m: Match)
    requires Filled(c, c', k, o, e, v, d)
    requires FieldName(field) && IsMatch(c, field, m) && m.name != o - 1 && m.name != e
    ensures IsMatch(c', field, MovedMatch(c', m, o, d))
  {
    Placement(c, k, o, e, field, m);
    if e < m.start {
      MovesBehind(c, c', o, e, v, d, field, m);
    } else if m.close < o {
      MovesBefore(c, c', o, e, v, d, field, m);
    } else {
      MovesAround(c, c', o, e, v, d, field, m);
    }
  }

  lemma {:induction false} MovesBehind(c: string, c': string, o: nat, e: nat, v: string, d: int, field: string,
                                       m: Match)
    requires Edited(c, c', o, e, v, d) && e < m.start && IsMatch(c, field, m)
    ensures IsMatch(c', field, MovedMatch(c', m, o, d))
  {
    HeadMoves(c, c', field, m, MovedMatch(c', m, o, d), d);
    FreeMoves(c, c', m.quote + 1, m.close, '"', d);
    assert Same(c, c', m.close, d);
  }

  lemma {:induction false} MovesAround(c: string, c': string, o: nat, e: nat, v: string, d: int, field: string,
                                       m: Match)
    requires Edited(c, c', o, e, v, d) && m.quote == o - 1 && m.close == e && IsMatch(c, field, m) && Unquoted(v)
    ensures IsMatch(c', field, MovedMatch(c', m, o, d))
  {
    HeadMoves(c, c', field, m, MovedMatch(c', m, o, d), 0);
    assert Same(c, c', m.close, d);
  }

  lemma {:induction false} MovesBefore(c: string, c': string, o: nat, e: nat, v: string, d: int, field: string,
                                       m: Match)
    requires Edited(c, c', o, e, v, d) && m.close < o && IsMatch(c, field, m)
    ensures IsMatch(c', field, MovedMatch(c', m, o, d))
  {
    HeadMoves(c, c', field, m, MovedMatch(c', m, o, d), 0);
    FreeMoves(c, c', m.quote + 1, m.close, '"', 0);
    assert Same(c, c', m.close, 0);
  }

  /** The filled hole is a hole again, and putting the old text back undoes the edit. */
  lemma {:induction false} FilledBack(c: string, c': string, k: nat, o: nat, e: nat, v: string, d: int)
    requires Filled(c, c', k, o, e, v, d)
    ensures Filled(c', c, k, o, o + |v|, c[o..e], -d) && c'[o..o + |v|] == v
  {
    assert c'[o..o + |v|] == v;
    SpacesMove(c, c', k + 1, o - 1, 0);
    assert Same(c, c', k, 0) && Same(c, c', o - 1, 0) && Same(c, c', e, d);
    forall i | 0 <= i < o ensures Same(c', c, i, 0) {
      assert Same(c, c', i, 0);
    }
    var back := -d;
    forall i | e + d <= i < |c'| ensures Same(c', c, i, back) {
      assert Same(c, c', i - d, d);
    }
  }

  /** A position outside the hole; the hole's second quote is outside. */
  predicate Outside(i: nat, o: nat, e: nat) { i < o || e <= i }

  /** Positions outside the hole keep their order, and come back to where they were. */
  lemma {:induction false} OrderKept(a: nat, b: nat, o: nat, e: nat, d: int)
    requires Outside(a, o, e) && Outside(b, o, e) && o <= e && o <= e + d
    ensures a <= b <==> Moved(a, o, d) <= Moved(b, o, d)
    ensures Moved(Moved(a, o, d), o, -d) == a && Outside(Moved(a, o, d), o, e + d)
  {
  }

  /** All pieces of a match lie outside the hole, except perhaps its end. */
  ghost predicate Settled(m: Match, o: nat, e: nat) {
    && Outside(m.start, o, e) && Outside(m.name, o, e) && Outside(m.colon, o, e) && Outside(m.quote, o, e)
    && Outside(m.close, o, e)
  }

  lemma {:induction false} Settles(c: string, k: nat, o: nat, e: nat, field: string, m: Match)
    requires Hole(c, k, o, e) && FieldName(field) && IsMatch(c, field, m) && m.name != o - 1 && m.name != e
    ensures Settled(m, o, e)
  {
    Placement(c, k, o, e, field, m);
  }

  /** The end of a match is where its last line ends. */
  lemma {:induction false} EndIsNext(c: string, field: string, m: Match)
    requires IsMatch(c, field, m)
    ensures EndFrom(c, m.close + 1) == m.end
  {
    NextStops(c, m.close + 1, m.end, '\n');
  }

  /** A moved match: it is one, its name is at neither quote, and moving it back restores it. */
  lemma {:induction false} FilledMatch(c: string, c': string, k: nat, o: nat, e: nat, v: string, d: int, field: string,
                                       m: Match)
    requires Filled(c, c', k, o, e, v, d) && FieldName(field) && IsMatch(c, field, m)
    requires m.name != o - 1 && m.name != e
    ensures var m' := MovedMatch(c', m, o, d);
            && IsMatch(c', field, m') && m'.name != o - 1 && m'.name != e + d
            && MovedMatch(c, m', o, -d) == m && Settled(m, o, e) && Settled(m', o, e + d)
  {
    MatchMoves(c, c', k, o, e, v, d, field, m);
    Settles(c, k, o, e, field, m);
    EndIsNext(c, field, m);
    MovedBack(c, c', m, o, e, d);
  }

  lemma {:induction false} MovedBack(c: string, c': string, m: Match, o: nat, e: nat, d: int)
    requires Settled(m, o, e) && o <= e && o <= e + d && EndFrom(c, m.close + 1) == m.end
    requires m.name != o - 1 && m.name != e
    ensures var m' := MovedMatch(c', m, o, d);
            MovedMatch(c, m', o, -d) == m && Settled(m', o, e + d) && m'.name != o - 1 && m'.name != e + d
  {
    OrderKept(m.start, m.start, o, e, d);
    OrderKept(m.name, m.name, o, e, d);
    OrderKept(m.colon, m.colon, o, e, d);
    OrderKept(m.quote, m.quote, o, e, d);
    OrderKept(m.close, m.close, o, e, d);
  }

  /** In a text edited to hold a plain string that is not the field's name, no match has its name at the hole's
      quotes. */
  lemma {:induction false} NotTheName(c: string, c': string, k: nat, o: nat, e: nat, v: string, d: int, field: string,
                                      m': Match)
    requires Filled(c, c', k, o, e, v, d) && FieldName(field) && IsMatch(c', field, m') && v != field && Plain(v)
    ensures m'.name != o - 1 && m'.name != o + |v|
  {
    FilledBack(c, c', k, o, e, v, d);
    assert forall i :: o <= i < o + |v| ==> c'[i] == v[i - o];
    var last: nat := o + |v|;
    if m'.name == o - 1 {
      HoleWithName(c', k, o, last, field, m');
    }
    if m'.name == last {
      HoleBeforeName(c', k, o, last, field, m');
    }
  }

  /** Matches of the edited text come from matches of the text. */
  lemma {:induction false} MatchBefore(c: string, c': string, k: nat, o: nat, e: nat, v: string, d: int, field: string,
                                       m': Match)
    returns (m: Match)
    requires Filled(c, c', k, o, e, v, d) && FieldName(field) && IsMatch(c', field, m') && v != field && Plain(v)
    ensures IsMatch(c, field, m) && m.name != o - 1 && m.name != e && MovedMatch(c', m, o, d) == m'
  {
    hide IsMatch;
    NotTheName(c, c', k, o, e, v, d, field, m');
    m := MovedMatch(c, m', o, -d);
    FilledBack(c, c', k, o, e, v, d);
    FilledMatch(c', c, k, o, o + |v|, c[o..e], -d, field, m');
  }

  /** A match that starts inside another of the same field has its name, or has its name where its value is, or where
      its value ends. */
  lemma {:induction false} InnerStart(c: string, field: string, g: Match, m: Match)
    requires FieldName(field) && IsMatch(c, field, g) && IsMatch(c, field, m) && g.start <= m.start < g.end
    ensures m.name == g.name || m.name == g.quote || m.name == g.close
  {
    FieldChars(c, field, g);
    if m.start == g.start {
      MatchUnique(c, field, g, m);
    } else {
      var at := m.start - 1;
      assert c[at] == '\n' && g.start <= at < g.end;
      assert at < g.name || g.name + |field| + 1 < at < g.colon || g.colon < at < g.quote || g.quote < at < g.close;
    }
  }

  lemma {:induction false} Ordered(c: string, field: string, m: Match)
    requires IsMatch(c, field, m)
    ensures m.start <= m.name < m.colon < m.quote < m.close < m.end
  {
  }

  lemma {:induction false} StartsInside(c: string, field: string, g: Match, m: Match)
    requires Sole(c, field, g) && IsMatch(c, field, m)
    ensures g.start <= m.start < g.end
  {
    assert m.start <= |c|;
  }

  /** A match of the edited text lies in the span of the one match that the text had. */
  lemma {:induction false} InsideMoved(o: nat, e: nat, d: int, g: Match, m: Match, g': Match, m': Match)
    requires Settled(g, o, e) && Settled(m, o, e) && o <= e && o <= e + d
    requires g.start <= m.start && m.name <= g.close
    requires g'.start == Moved(g.start, o, d) && g'.close == Moved(g.close, o, d) && g'.close < g'.end
    requires m'.start == Moved(m.start, o, d) && m'.name == Moved(m.name, o, d) && m'.start <= m'.name
    ensures g'.start <= m'.start < g'.end
  {
    OrderKept(g.start, m.start, o, e, d);
    OrderKept(m.name, g.close, o, e, d);
  }

  /** Read backwards, from the edited text to the text: where the matches of the edited text come from decides that the
      one match stays the only one. */
  lemma {:induction false} SoleCarries(c: string, c': string, k: nat, o: nat, e: nat, v: string, d: int, field: string,
                                       g: Match, m': Match)
    requires Filled(c', c, k, o, e, v, d) && FieldName(field) && Sole(c, field, g) && IsMatch(c', field, m')
    requires m'.name != o - 1 && m'.name != e
    requires Settled(g, o, e + d)
    ensures var g' := MovedMatch(c', g, o, -d);
            g'.close < g'.end ==> g'.start <= m'.start < g'.end
  {
    hide Hole;
    hide IsMatch;
    hide FieldName;
    hide NoMatch;
    FilledMatch(c', c, k, o, e, v, d, field, m');
    var m := MovedMatch(c, m', o, d);
    StartsInside(c, field, g, m);
    InnerStart(c, field, g, m);
    Ordered(c, field, g);
    Ordered(c', field, m');
    var g' := MovedMatch(c', g, o, -d);
    if g'.close < g'.end {
      InsideMoved(o, e + d, -d, g, m, g', m');
    }
  }

  /** A field that is found once, and whose name is not at the edit's quotes, is found once afterwards, if there too no
      match has its name at the quotes. */
  lemma {:induction false} OnceCarries(c: string, c': string, k: nat, o: nat, e: nat, v: string, d: int, field: string,
                                       g: Match)
    requires Filled(c, c', k, o, e, v, d) && FieldName(field) && Once(c, field, g) && g.name != o - 1 && g.name != e
    requires forall m' :: IsMatch(c', field, m') ==> m'.name != o - 1 && m'.name != o + |v|
    ensures Once(c', field, MovedMatch(c', g, o, d))
  {
    hide IsMatch;
    hide Once;
    hide Hole;
    hide FieldName;
    OnceMeans(c, field, g);
    FilledMatch(c, c', k, o, e, v, d, field, g);
    FilledBack(c, c', k, o, e, v, d);
    var g' := MovedMatch(c', g, o, d);
    Ordered(c', field, g');
    forall m' | IsMatch(c', field, m') ensures g'.start <= m'.start < g'.end {
      SoleCarries(c, c', k, o, o + |v|, c[o..e], -d, field, g, m');
    }
    OnceIs(c', field, g');
  }

  /** A field that is found once, and whose name is not at the edit's quotes, is found once afterwards. */
  lemma {:induction false} OnceMoves(c: string, c': string, k: nat, o: nat, e: nat, v: string, d: int, field: string,
                                     g: Match)
    requires Filled(c, c', k, o, e, v, d) && FieldName(field) && Once(c, field, g) && g.name != o - 1 && g.name != e
    requires v != field && Plain(v)
    ensures Once(c', field, MovedMatch(c', g, o, d))
  {
    hide IsMatch;
    hide Once;
    forall m' | IsMatch(c', field, m') ensures m'.name != o - 1 && m'.name != o + |v| {
      NotTheName(c, c', k, o, e, v, d, field, m');
    }
    OnceCarries(c, c', k, o, e, v, d, field, g);
  }

  /** A field that is found once in the edited text, and none of whose matches had its name at the hole's quotes, was
      found once. */
  lemma {:induction false} OnceMovedBack(c: string, c': string, k: nat, o: nat, e: nat, v: string, d: int,
                                         field: string, g': Match)
    requires Filled(c, c', k, o, e, v, d) && FieldName(field) && Once(c', field, g') && v != field && Plain(v)
    requires forall m :: IsMatch(c, field, m) ==> m.name != o - 1 && m.name != e
    ensures Once(c, field, MovedMatch(c, g', o, -d))
  {
    hide IsMatch;
    hide Once;
    OnceMatches(c', field, g');
    NotTheName(c, c', k, o, e, v, d, field, g');
    FilledBack(c, c', k, o, e, v, d);
    OnceCarries(c', c, k, o, o + |v|, c[o..e], -d, field, g');
  }

  lemma {:induction false} OnceMatches(c: string, field: string, m: Match)
    requires Once(c, field, m)
    ensures IsMatch(c, field, m)
  {
    OnceMeans(c, field, m);
  }

  /** A hole further on stays a hole. */
  lemma {:induction false} HoleMoves(c: string, c': string, o: nat, e: nat, v: string, d: int, k: nat, o2: nat, e2: nat)
    requires Edited(c, c', o, e, v, d) && Hole(c, k, o2, e2) && e < k
    ensures 0 <= k + d && Hole(c', k + d, o2 + d, e2 + d) && c'[o2 + d..e2 + d] == c[o2..e2]
  {
    SpacesMove(c, c', k + 1, o2 - 1, d);
    assert Same(c, c', k, d) && Same(c, c', o2 - 1, d) && Same(c, c', e2, d);
    var was, now := c[o2..e2], c'[o2 + d..e2 + d];
    forall i | 0 <= i < |was| ensures now[i] == was[i] {
      assert Same(c, c', o2 + i, d);
    }
    assert now == was;
  }
}
