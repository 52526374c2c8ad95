/**
 * How the build script decides which column of a sheet holds the rank, the
 * runner, the score ("index"), the gender and the nationality
 * (scripts/build_json_from_xlsx.py:55-97). Columns are identified by their
 * position in the header row; every comparison except the one against the
 * label `Unnamed: 0` is made on the stripped, lower-cased header.
 */
module Columns {

  import opened Wrappers
  import opened Text

  /** `str(c).strip().lower()`. */
  function Key(h: string): (k: string)
  {
    Lower(Strip(h))
  }

  /** The key of every header, in column order. */
  function Keys(hs: seq<string>): (ks: seq<string>)
    ensures |ks| == |hs|
    ensures forall i :: 0 <= i < |hs| ==> ks[i] == Key(hs[i])
  {
    seq(|hs|, i requires 0 <= i < |hs| => Key(hs[i]))
  }

  /** Position `i` is the first in `xs` whose entry satisfies `P`. */
  predicate IsFirstWhere(xs: seq<string>, P: string -> bool, i: int)
  {
    0 <= i < |xs| && P(xs[i]) && forall j :: 0 <= j < i ==> !P(xs[j])
  }

  /** The first position whose entry satisfies `P`, if any: a `for ... break` scan. */
  function FirstWhere(xs: seq<string>, P: string -> bool): (r: Option<nat>)
    ensures r.Some? ==> IsFirstWhere(xs, P, r.value)
    ensures r.None? <==> forall j :: 0 <= j < |xs| ==> !P(xs[j])
  {
    if xs == [] then None
    else if P(xs[0]) then Some(0)
    else match FirstWhere(xs[1..], P)
      case None => None
      case Some(i) => Some(i + 1)
  }

  /** The scan itself: the columns are visited in order and the loop breaks at the first hit. */
  method FindFirst(xs: seq<string>, P: string -> bool) returns (r: Option<nat>)
    ensures r == FirstWhere(xs, P)
  {
    r := None;
    var i := 0;
    while i < |xs|
      invariant 0 <= i <= |xs|
      invariant forall j :: 0 <= j < i ==> !P(xs[j])
    {
      if P(xs[i]) {
        r := Some(i);
        break;
      }
      i := i + 1;
    }
  }

  // ---------------------------------------------------------------- rank column

  predicate IsRankKey(k: string)
  {
    k in ["rank", "#", "pos", "place"]
  }

  /** The label pandas gives a first column whose header cell is empty. */
  const UnnamedFirst: string := "Unnamed: 0"

  predicate IsUnnamedFirst(h: string)
  {
    h == UnnamedFirst
  }

  /**
   * The rank column: the first column with a rank-like key, else the column
   * labelled exactly `Unnamed: 0`, else the first column. A sheet without
   * columns has none (there `df.columns[0]` raises).
   */
  function RankColumn(hs: seq<string>): (r: Option<nat>)
    ensures r.None? <==> hs == []
    ensures r.Some? ==> r.value < |hs|
  {
    match FirstWhere(Keys(hs), IsRankKey)
    case Some(i) => Some(i)
    case None =>
      match FirstWhere(hs, IsUnnamedFirst)
      case Some(i) => Some(i)
      case None => if hs == [] then None else Some(0)
  }

  method ChooseRankColumn(hs: seq<string>) returns (rankCol: Option<nat>)
    ensures rankCol == RankColumn(hs)
  {
    rankCol := FindFirst(Keys(hs), IsRankKey);
    if rankCol == None && UnnamedFirst in hs {
      rankCol := FindFirst(hs, IsUnnamedFirst);
    }
    if rankCol == None && |hs| > 0 {
      rankCol := Some(0);
    }
  }

  /** The three steps of the rank-column choice, each taken only when the earlier ones found nothing. */
  lemma RankColumnChoice(hs: seq<string>)
    ensures var r, ks := RankColumn(hs), Keys(hs);
      && (r.None? <==> hs == [])
      && ((exists i :: 0 <= i < |ks| && IsRankKey(ks[i])) ==> r.Some? && IsFirstWhere(ks, IsRankKey, r.value))
      && ((forall i :: 0 <= i < |ks| ==> !IsRankKey(ks[i])) && UnnamedFirst in hs ==>
            r.Some? && IsFirstWhere(hs, IsUnnamedFirst, r.value))
      && ((forall i :: 0 <= i < |ks| ==> !IsRankKey(ks[i])) && UnnamedFirst !in hs && hs != [] ==>
            r == Some(0))
  {
    var ks := Keys(hs);
    var first := FirstWhere(ks, IsRankKey);
    if first.Some? {
      assert RankColumn(hs) == first;
    } else if UnnamedFirst in hs {
      var i :| 0 <= i < |hs| && hs[i] == UnnamedFirst;
      assert IsUnnamedFirst(hs[i]);
      assert RankColumn(hs) == FirstWhere(hs, IsUnnamedFirst);
    } else {
      assert forall i :: 0 <= i < |hs| ==> !IsUnnamedFirst(hs[i]);
    }
  }

  // ---------------------------------------------------------------- roles

  /** The roles of `colmap`; the score role is the document's `index` field. */
  datatype Role = Runner | Score | Gender | Nationality

  /** The `if`/`elif` chain of the exact pass: at most one role per key. */
  function ExactRole(k: string): Option<Role>
  {
    if k in ["runner", "athlete", "name"] then Some(Runner)
    else if k in ["race score", "score", "index", "utmb index", "itra score"] then Some(Score)
    else if k in ["gender", "sex"] then Some(Gender)
    else if k in ["nationality", "nation", "country"] then Some(Nationality)
    else None
  }

  /** The substring test of the fallback pass for `role`; only score and runner have one. */
  function FallbackTest(role: Role): Option<string -> bool>
  {
    match role
    case Score => Some(ScoreLike)
    case Runner => Some(RunnerLike)
    case _ => None
  }

  predicate ScoreLike(k: string)
  {
    Contains(k, "race score") || Contains(k, "utmb") || Contains(k, "itra")
  }

  predicate RunnerLike(k: string)
  {
    Contains(k, "runner") || Contains(k, "athlete") || Contains(k, "name")
  }

  /** The role the exact pass gives each column, in column order. */
  function ExactRoles(ks: seq<string>): (rs: seq<Option<Role>>)
    ensures |rs| == |ks|
    ensures forall i :: 0 <= i < |ks| ==> rs[i] == ExactRole(ks[i])
  {
    seq(|ks|, i requires 0 <= i < |ks| => ExactRole(ks[i]))
  }

  /** Some column matches `role` exactly. */
  predicate HasExact(rs: seq<Option<Role>>, role: Role)
  {
    exists i :: 0 <= i < |rs| && rs[i] == Some(role)
  }

  /** Position `i` is the last column that matches `role` exactly. */
  predicate IsLastExact(rs: seq<Option<Role>>, role: Role, i: int)
  {
    0 <= i < |rs| && rs[i] == Some(role) && forall j :: i < j < |rs| ==> rs[j] != Some(role)
  }

  /** `colmap` after the exact pass over the columns' roles `rs`: each match overwrites the role's entry. */
  function ExactPass(rs: seq<Option<Role>>): map<Role, nat>
  {
    if rs == [] then map[]
    else
      var m := ExactPass(rs[..|rs| - 1]);
      match rs[|rs| - 1]
      case Some(role) => m[role := |rs| - 1]
      case None => m
  }

  /** In the exact pass the LAST exactly matching column wins its role. */
  lemma {:induction false} ExactPassLast(rs: seq<Option<Role>>, role: Role)
    ensures role in ExactPass(rs) <==> HasExact(rs, role)
    ensures role in ExactPass(rs) ==> IsLastExact(rs, role, ExactPass(rs)[role])
  {
    if rs != [] {
      var init := rs[..|rs| - 1];
      ExactPassLast(init, role);
      assert forall i :: 0 <= i < |init| ==> init[i] == rs[i];
      if HasExact(rs, role) && rs[|rs| - 1] != Some(role) {
        var i :| 0 <= i < |rs| && rs[i] == Some(role);
        assert init[i] == Some(role);
      }
    }
  }

  /** The exact pass never gives one column two roles. */
  lemma ExactPassOneRolePerColumn(rs: seq<Option<Role>>, r1: Role, r2: Role)
    requires r1 in ExactPass(rs) && r2 in ExactPass(rs) && r1 != r2
    ensures ExactPass(rs)[r1] != ExactPass(rs)[r2]
  {
    ExactPassLast(rs, r1);
    ExactPassLast(rs, r2);
  }

  /** A fallback pass: runs only when the role is still unset, and takes the first matching column. */
  function WithFallback(m: map<Role, nat>, role: Role, ks: seq<string>, P: string -> bool): map<Role, nat>
  {
    if role in m then m
    else match FirstWhere(ks, P)
      case Some(i) => m[role := i]
      case None => m
  }

  /** A fallback pass leaves every other role as it was. */
  lemma FallbackKeepsOthers(m: map<Role, nat>, role: Role, ks: seq<string>, P: string -> bool, other: Role)
    requires other != role
    ensures other in WithFallback(m, role, ks, P) <==> other in m
    ensures other in m ==> WithFallback(m, role, ks, P)[other] == m[other]
  {
  }

  /** `colmap` over the keys: the exact pass, then the score fallback, then the runner fallback. */
  function ColumnMapOf(ks: seq<string>): map<Role, nat>
  {
    WithFallback(WithFallback(ExactPass(ExactRoles(ks)), Score, ks, ScoreLike), Runner, ks, RunnerLike)
  }

  /** `colmap` of a sheet with the headers `hs`: every column it names is one of the sheet's. */
  function ColumnMap(hs: seq<string>): (m: map<Role, nat>)
    ensures forall role :: role in m ==> m[role] < |hs|
  {
    var ks := Keys(hs);
    ColumnMapAllInRange(ks);
    ColumnMapOf(ks)
  }

  /** The exact pass: one `if`/`elif` chain per column, in column order. */
  method ExactScan(ks: seq<string>) returns (colmap: map<Role, nat>)
    ensures colmap == ExactPass(ExactRoles(ks))
  {
    ghost var rs := ExactRoles(ks);
    colmap := map[];
    var i := 0;
    while i < |ks|
      invariant 0 <= i <= |ks|
      invariant colmap == ExactPass(rs[..i])
    {
      assert rs[..i + 1][..i] == rs[..i];
      var role := ExactRole(ks[i]);
      if role.Some? {
        colmap := colmap[role.value := i];
      }
      i := i + 1;
    }
    assert rs[..|ks|] == rs;
  }

  /** One fallback pass: only when `role` is still unset, the first column whose key satisfies `P`. */
  method Fallback(colmap: map<Role, nat>, role: Role, ks: seq<string>, P: string -> bool)
    returns (m: map<Role, nat>)
    ensures m == WithFallback(colmap, role, ks, P)
  {
    m := colmap;
    if role !in m {
      var c := FindFirst(ks, P);
      if c.Some? {
        m := m[role := c.value];
      }
    }
  }

  method BuildColumnMap(hs: seq<string>) returns (colmap: map<Role, nat>)
    ensures colmap == ColumnMap(hs)
  {
    var ks := Keys(hs);
    colmap := ExactScan(ks);
    colmap := Fallback(colmap, Score, ks, ScoreLike);
    colmap := Fallback(colmap, Runner, ks, RunnerLike);
  }

  /** A role with an exact match goes to the last exactly matching column. */
  lemma ColumnMapExact(ks: seq<string>, role: Role)
    requires HasExact(ExactRoles(ks), role)
    ensures role in ColumnMapOf(ks) && IsLastExact(ExactRoles(ks), role, ColumnMapOf(ks)[role])
  {
    var rs := ExactRoles(ks);
    ExactPassLast(rs, role);
    assert ColumnMapOf(ks)[role] == ExactPass(rs)[role];
  }

  /**
   * A role without an exact match: for score and runner, the first column
   * whose key contains one of the role's substrings, if any; for gender and
   * nationality, none.
   */
  lemma ColumnMapFallback(ks: seq<string>, role: Role)
    requires !HasExact(ExactRoles(ks), role)
    ensures match FallbackTest(role)
      case None => role !in ColumnMapOf(ks)
      case Some(P) =>
        && (role in ColumnMapOf(ks) <==> exists i :: 0 <= i < |ks| && P(ks[i]))
        && (role in ColumnMapOf(ks) ==> IsFirstWhere(ks, P, ColumnMapOf(ks)[role]))
  {
    var rs := ExactRoles(ks);
    ExactPassLast(rs, role);
    var e := ExactPass(rs);
    assert role !in e;
    match role
    case Score =>
      var m := WithFallback(e, Score, ks, ScoreLike);
      assert m == match FirstWhere(ks, ScoreLike) case Some(i) => e[Score := i] case None => e;
      FallbackKeepsOthers(m, Runner, ks, RunnerLike, Score);
    case Runner =>
      var m := WithFallback(e, Score, ks, ScoreLike);
      assert Runner !in m;
      assert ColumnMapOf(ks) == match FirstWhere(ks, RunnerLike) case Some(i) => m[Runner := i] case None => m;
    case Gender =>
    case Nationality =>
  }

  /** Every column `colmap` names exists. */
  lemma ColumnMapInRange(ks: seq<string>, role: Role)
    requires role in ColumnMapOf(ks)
    ensures ColumnMapOf(ks)[role] < |ks|
  {
    if HasExact(ExactRoles(ks), role) {
      ColumnMapExact(ks, role);
    } else {
      ColumnMapFallback(ks, role);
    }
  }

  lemma ColumnMapAllInRange(ks: seq<string>)
    ensures forall role :: role in ColumnMapOf(ks) ==> ColumnMapOf(ks)[role] < |ks|
  {
    forall role | role in ColumnMapOf(ks)
      ensures ColumnMapOf(ks)[role] < |ks|
    {
      ColumnMapInRange(ks, role);
    }
  }

  /** The sheet is converted exactly when some column is found for the score role. */
  lemma ScoreColumnFound(hs: seq<string>)
    ensures var ks := Keys(hs);
      Score in ColumnMap(hs) <==> HasExact(ExactRoles(ks), Score) || exists i :: 0 <= i < |ks| && ScoreLike(ks[i])
  {
    var ks := Keys(hs);
    if HasExact(ExactRoles(ks), Score) {
      ColumnMapExact(ks, Score);
    } else {
      ColumnMapFallback(ks, Score);
    }
  }

  /** The headers of the example below have one key, `utmb runner`. */
  lemma UtmbRunnerKey()
    ensures Keys(["UTMB runner"]) == ["utmb runner"]
  {
    var h := "UTMB runner";
    StripTrimmed(h);
    assert Lower(h) == "utmb runner";
  }

  /** Both substring tests accept the key `utmb runner`, which matches no role exactly. */
  lemma UtmbRunnerLikeBoth()
    ensures ExactRole("utmb runner") == None
    ensures ScoreLike("utmb runner") && RunnerLike("utmb runner")
  {
    var k := "utmb runner";
    assert "utmb" <= k;
    assert k[5..11] == "runner";
    assert OccursAt(k, "runner", 5);
    ContainsIff(k, "runner");
  }

  /** The column map of the single key `utmb runner`. */
  lemma UtmbRunnerMap()
    ensures ColumnMapOf(["utmb runner"]) == map[Score := 0, Runner := 0]
  {
    UtmbRunnerLikeBoth();
    var ks := ["utmb runner"];
    var rs: seq<Option<Role>> := [None];
    assert ExactRoles(ks) == rs;
    assert ExactPass(rs) == map[] by { assert rs[..0] == []; }
    assert FirstWhere(ks, ScoreLike) == Some(0);
    assert FirstWhere(ks, RunnerLike) == Some(0);
  }

  /**
   * The two fallback passes are independent, so one column can end up with
   * both the score and the runner role when its header mentions both.
   */
  lemma FallbackSharesColumn()
    ensures ColumnMap(["UTMB runner"]) == map[Score := 0, Runner := 0]
  {
    UtmbRunnerKey();
    UtmbRunnerMap();
  }
}
