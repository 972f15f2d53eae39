/** What the past of the token table means for its future: spent tokens stay spent, revoked families stay revoked. */
module RefreshHistory {
  import opened Common
  import opened Directory
  import opened RefreshTokens

  /** Rows are never removed or re-dated, and a recorded use or revocation is never changed. */
  ghost predicate Keeps(rows: seq<TokenRow>, rows': seq<TokenRow>) {
    && |rows| <= |rows'|
    && forall i :: 0 <= i < |rows| ==> RowKeeps(rows[i], rows'[i])
  }

  ghost predicate RowKeeps(a: TokenRow, b: TokenRow) {
    && b == a.(usedAt := b.usedAt, revokedAt := b.revokedAt)
    && (a.usedAt.Some? ==> b.usedAt == a.usedAt)
    && (a.revokedAt.Some? ==> b.revokedAt == a.revokedAt)
  }

  lemma {:induction false} StepKeeps(rows: seq<TokenRow>, users: seq<UserRow>, op: Op)
    requires UniqueKeys(rows)
    ensures Keeps(rows, Apply(rows, users, op))
  {
    if op.RotateOp? && Rotate(rows, users, op.hash, op.newHash, op.newExpiry, op.newId, op.now).1.Rotated? {
      RotateSucceeds(rows, users, op);
    } else if !op.CreateOp? {
      OtherwiseOnlyRevokes(rows, users, op);
    }
  }

  lemma {:induction false} KeepsTransitive(a: seq<TokenRow>, b: seq<TokenRow>, c: seq<TokenRow>)
    requires Keeps(a, b) && Keeps(b, c)
    ensures Keeps(a, c)
  {
    forall i | 0 <= i < |a| ensures RowKeeps(a[i], c[i]) {
      assert RowKeeps(a[i], b[i]) && RowKeeps(b[i], c[i]);
    }
  }

  // ---------------------------------------------------------------- families

  function FamilyRows(rows: seq<TokenRow>, family: string): seq<TokenRow> {
    if rows == [] then [] else
      var n := |rows| - 1;
      FamilyRows(rows[..n], family) + (if rows[n].family == family then [rows[n]] else [])
  }

  ghost predicate FamilyRevoked(rows: seq<TokenRow>, family: string) {
    forall i :: 0 <= i < |rows| && rows[i].family == family ==> rows[i].revokedAt.Some?
  }

  lemma {:induction false} SameFamilyRows(a: seq<TokenRow>, b: seq<TokenRow>, family: string)
    requires |a| == |b|
    requires forall i :: 0 <= i < |a| ==> a[i].family == b[i].family && (a[i].family == family ==> a[i] == b[i])
    ensures FamilyRows(a, family) == FamilyRows(b, family)
  {
    if |a| > 0 {
      SameFamilyRows(a[..|a| - 1], b[..|b| - 1], family);
    }
  }

  lemma {:induction false} SameFamilySize(a: seq<TokenRow>, b: seq<TokenRow>, family: string)
    requires |a| == |b| && forall i :: 0 <= i < |a| ==> a[i].family == b[i].family
    ensures |FamilyRows(a, family)| == |FamilyRows(b, family)|
  {
    if |a| > 0 {
      SameFamilySize(a[..|a| - 1], b[..|b| - 1], family);
    }
  }

  lemma {:induction false} UnknownFamilyEmpty(rows: seq<TokenRow>, family: string)
    requires FamilyUnknown(rows, family)
    ensures FamilyRows(rows, family) == []
  {
    if |rows| > 0 {
      UnknownFamilyEmpty(rows[..|rows| - 1], family);
    }
  }

  /** A used token reports reuse whatever its expiry, its revocation, its user's state or the clock say, and the
      report leaves its whole family revoked. */
  lemma {:induction false} UsedReportsReuse(rows: seq<TokenRow>, users: seq<UserRow>, hash: Bytes, newHash: Bytes,
                                            newExpiry: Time, newId: int, now: Time)
    requires IndexOf(rows, hash) < |rows|
    requires rows[IndexOf(rows, hash)].usedAt.Some? && ActiveOf(users, rows[IndexOf(rows, hash)].userId).Some?
    ensures var (rows', verdict) := Rotate(rows, users, hash, newHash, newExpiry, newId, now);
            verdict == Refused(RefreshReuse) && FamilyRevoked(rows', rows[IndexOf(rows, hash)].family)
  {
  }

  lemma {:induction false} LogoutRevokes(rows: seq<TokenRow>, hash: Bytes, now: Time)
    requires IndexOf(rows, hash) < |rows|
    ensures FamilyRevoked(RevokeByToken(rows, hash, now), rows[IndexOf(rows, hash)].family)
  {
  }

  /** A step that at most revokes leaves a revoked family as it is. */
  lemma {:induction false} RevokingFreezes(rows: seq<TokenRow>, rows': seq<TokenRow>, family: string)
    requires FamilyRevoked(rows, family) && OnlyRevokes(rows, rows')
    ensures FamilyRevoked(rows', family) && FamilyRows(rows', family) == FamilyRows(rows, family)
  {
    SameFamilyRows(rows, rows', family);
  }

  /** So does a row of another family that is appended, while the rows of the family stay. */
  lemma {:induction false} AppendingFreezes(rows: seq<TokenRow>, rows': seq<TokenRow>, family: string)
    requires FamilyRevoked(rows, family) && |rows'| == |rows| + 1 && rows'[|rows|].family != family
    requires forall i :: 0 <= i < |rows| ==>
               rows[i].family == rows'[i].family && (rows[i].family == family ==> rows[i] == rows'[i])
    ensures FamilyRevoked(rows', family) && FamilyRows(rows', family) == FamilyRows(rows, family)
  {
    SameFamilyRows(rows, rows'[..|rows|], family);
  }

  /** The token that a rotation spends was not revoked. */
  lemma {:induction false} RotatedWasLive(rows: seq<TokenRow>, users: seq<UserRow>, op: Op)
    requires op.RotateOp? && Rotate(rows, users, op.hash, op.newHash, op.newExpiry, op.newId, op.now).1.Rotated?
    ensures IndexOf(rows, op.hash) < |rows| && rows[IndexOf(rows, op.hash)].revokedAt.None?
  {
    hide RevokeFamily;
    hide MarkUsed;
    hide Insert;
  }

  /** Once a family is revoked, no step changes any of its rows, adds a row to it, or rotates one of its tokens. */
  lemma {:induction false} RevokedFamilyFrozen(rows: seq<TokenRow>, users: seq<UserRow>, op: Op, family: string)
    requires UniqueKeys(rows) && FamilyRevoked(rows, family)
    requires op.CreateOp? ==> op.row.family != family
    ensures var rows' := Apply(rows, users, op);
            FamilyRevoked(rows', family) && FamilyRows(rows', family) == FamilyRows(rows, family)
    ensures op.RotateOp? && IndexOf(rows, op.hash) < |rows| && rows[IndexOf(rows, op.hash)].family == family ==>
              !Rotate(rows, users, op.hash, op.newHash, op.newExpiry, op.newId, op.now).1.Rotated?
  {
    hide Rotate;
    hide FamilyRows;
    var rows' := Apply(rows, users, op);
    if op.RotateOp? && Rotate(rows, users, op.hash, op.newHash, op.newExpiry, op.newId, op.now).1.Rotated? {
      RotateSucceeds(rows, users, op);
      RotatedWasLive(rows, users, op);
      AppendingFreezes(rows, rows', family);
    } else if op.CreateOp? {
      if Insert(rows, users, op.row).Success? {
        AppendingFreezes(rows, rows', family);
      }
    } else {
      OtherwiseOnlyRevokes(rows, users, op);
      RevokingFreezes(rows, rows', family);
    }
  }
}
