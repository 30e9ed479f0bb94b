/**
 * Parameter types (internal/proxy/postgresql/server.go): handleDescribe resolves the OIDs of a
 * prepared statement in place, with inferInsertParamTypes asking the catalog. What the catalog
 * answers is a parameter: one OID a column, 0 when unknown.
 */
module ParamOids {
  import opened Wrappers
  import opened Texts
  import Placeholders

  const OID_TEXT: nat := 25
  const OID_OID: nat := 26

  // ---- inferInsertParamTypes ----

  /** The index of a value that is a placeholder and nothing else. */
  function ParamIndex(v: string): Option<nat>
  {
    var t := TrimSpace(v);
    if |t| > 1 && t[0] == '$' && Placeholders.AllDigits(t[1..]) then Some(Placeholders.Value(t[1..])) else None
  }

  /**
   * A value is a placeholder when, spaces aside, it is a dollar sign and digits and nothing
   * else; its index is the number the digits stand for.
   */
  lemma ParamIndexExactly(a: string, w: string, b: string)
    requires AllSpace(a) && Trimmed(w) && AllSpace(b)
    ensures ParamIndex(a + w + b).Some? <==>
      |w| >= 2 && w[0] == '$' && forall i :: 1 <= i < |w| ==> IsDigit(w[i])
    ensures ParamIndex(a + w + b).Some? ==> ParamIndex(a + w + b) == Some(Placeholders.Value(w[1..]))
  {
    hide TrimSpace, AllSpace, Trimmed, Placeholders.Value;
    TrimPads(a, w, b);
    if |w| >= 2 { assert forall i :: 1 <= i < |w| ==> w[1..][i - 1] == w[i]; }
  }

  lemma DollarIsTrimmed(k: nat)
    ensures Trimmed(Placeholders.Placeholder(k))
  {
    hide Placeholders.Digits;
    var d := Placeholders.Digits(k);
    DigitsAreNoSpace(d);
    assert Placeholders.Placeholder(k)[|d|] == d[|d| - 1];
  }

  lemma DigitsAreNoSpace(d: string)
    requires d != "" && IsDigit(d[|d| - 1])
    ensures !IsSpace(d[|d| - 1]) && !IsSpace('$')
  {
  }

  /** The placeholder of parameter k, however spaced, is read as k. */
  lemma ReadsPlaceholder(a: string, k: nat, b: string)
    requires AllSpace(a) && AllSpace(b)
    ensures ParamIndex(a + Placeholders.Placeholder(k) + b) == Some(k)
  {
    hide ParamIndex, AllSpace, Trimmed, Placeholders.Value, Placeholders.Digits;
    DollarIsTrimmed(k);
    ParamIndexExactly(a, Placeholders.Placeholder(k), b);
    Placeholders.ValueOfDigits(k);
    assert Placeholders.Placeholder(k)[1..] == Placeholders.Digits(k);
  }

  /** Position i gives parameter k a type. */
  predicate Types(vals: seq<string>, answers: seq<nat>, i: nat, k: nat)
    requires |vals| == |answers| && i < |vals|
  {
    ParamIndex(vals[i]) == Some(k) && answers[i] != 0
  }

  /** The type of the last position that gives parameter k one, or 0. */
  function LastType(vals: seq<string>, answers: seq<nat>, k: nat): nat
    requires |vals| == |answers|
  {
    if vals == [] then 0
    else
      var m := |vals| - 1;
      if Types(vals, answers, m, k) then answers[m] else LastType(vals[..m], answers[..m], k)
  }

  lemma {:induction false} LastTypeKnown(vals: seq<string>, answers: seq<nat>, k: nat)
    requires |vals| == |answers|
    ensures LastType(vals, answers, k) != 0 <==> exists i :: 0 <= i < |vals| && Types(vals, answers, i, k)
  {
    hide ParamIndex;
    if vals != [] {
      var m := |vals| - 1;
      LastTypeKnown(vals[..m], answers[..m], k);
      forall i | 0 <= i < m
        ensures Types(vals, answers, i, k) == Types(vals[..m], answers[..m], i, k)
      {
        assert vals[i] == vals[..m][i] && answers[i] == answers[..m][i];
      }
      if LastType(vals[..m], answers[..m], k) != 0 {
        var i :| 0 <= i < m && Types(vals[..m], answers[..m], i, k);
        assert Types(vals, answers, i, k);
      }
    }
  }

  /** When a placeholder stands in several typed columns the last of them gives the type. */
  lemma {:induction false} LastTypeIs(vals: seq<string>, answers: seq<nat>, i: nat, k: nat)
    requires |vals| == |answers| && i < |vals| && Types(vals, answers, i, k)
    requires forall j :: i < j < |vals| ==> !Types(vals, answers, j, k)
    ensures LastType(vals, answers, k) == answers[i]
  {
    hide ParamIndex;
    var m := |vals| - 1;
    if i < m {
      forall j | 0 <= j < m
        ensures Types(vals[..m], answers[..m], j, k) == Types(vals, answers, j, k)
      {
        assert vals[j] == vals[..m][j] && answers[j] == answers[..m][j];
      }
      LastTypeIs(vals[..m], answers[..m], i, k);
    }
  }

  /** The map the loop fills: every parameter with a type. */
  predicate Collected(known: map<nat, nat>, vals: seq<string>, answers: seq<nat>)
    requires |vals| == |answers|
  {
    && (forall k :: k in known ==> known[k] != 0 && known[k] == LastType(vals, answers, k))
    && (forall i :: 0 <= i < |vals| ==> answers[i] != 0 && ParamIndex(vals[i]).Some? ==> ParamIndex(vals[i]).value in known)
  }

  lemma CollectedStep(known: map<nat, nat>, vals: seq<string>, answers: seq<nat>)
    requires vals != [] && |vals| == |answers|
    requires Collected(known, vals[..|vals| - 1], answers[..|vals| - 1])
    ensures var m := |vals| - 1;
      Collected(if answers[m] != 0 && ParamIndex(vals[m]).Some? then known[ParamIndex(vals[m]).value := answers[m]] else known,
                vals, answers)
  {
    hide ParamIndex;
    var m := |vals| - 1;
    forall i | 0 <= i < m
      ensures vals[i] == vals[..m][i] && answers[i] == answers[..m][i]
    {
    }
  }

  lemma NothingCollected()
    ensures Collected(map[], [], [])
  {
  }

  /**
   * None unless some value of the list is a bare placeholder with a known column type; otherwise
   * one entry a parameter up to the highest typed one, 0 where the type is unknown. When a
   * placeholder stands in two columns, the later column gives the type.
   */
  method InferInsertParamTypes(cols: seq<string>, vals: seq<string>, answers: seq<nat>) returns (result: Option<seq<nat>>)
    requires |answers| == |cols|
    ensures |cols| != |vals| ==> result == None
    ensures |cols| == |vals| ==>
      && (result.None? <==> forall i, k :: 0 <= i < |vals| && k >= 0 ==> !Types(vals, answers, i, k))
      && (result.Some? ==>
          && (forall k :: 1 <= k <= |result.value| ==> result.value[k - 1] == LastType(vals, answers, k))
          && (forall k :: k > |result.value| ==> LastType(vals, answers, k) == 0)
          && (|result.value| > 0 ==> LastType(vals, answers, |result.value|) != 0))
  {
    hide ParamIndex, LastType;
    if |cols| != |vals| {
      return None;
    }
    var known: map<nat, nat> := map[];
    NothingCollected();
    for i := 0 to |vals|
      invariant Collected(known, vals[..i], answers[..i])
    {
      assert vals[..i + 1][..i] == vals[..i] && answers[..i + 1][..i] == answers[..i];
      CollectedStep(known, vals[..i + 1], answers[..i + 1]);
      var index := ParamIndex(vals[i]);
      if index.None? {
        continue;
      }
      if answers[i] != 0 {
        known := known[index.value := answers[i]];
      }
    }
    assert vals[..|vals|] == vals && answers[..|vals|] == answers;
    if known == map[] {
      return None;
    }
    var maxParam: nat := 0;
    var keys := known.Keys;
    while keys != {}
      invariant keys <= known.Keys
      invariant forall k :: k in known && k !in keys ==> k <= maxParam
      invariant maxParam == 0 || maxParam in known
      decreases |keys|
    {
      var k :| k in keys;
      if k > maxParam {
        maxParam := k;
      }
      keys := keys - {k};
    }
    ghost var any :| any in known;
    LastTypeKnown(vals, answers, any);
    result := Some(seq(maxParam, i requires 0 <= i => if i + 1 in known then known[i + 1] else 0));
    forall k: nat | k !in known
      ensures LastType(vals, answers, k) == 0
    {
      forall i | 0 <= i < |vals|
        ensures !Types(vals, answers, i, k)
      {
      }
      LastTypeKnown(vals, answers, k);
    }
  }

  // ---- handleDescribe ----

  /** What a Describe makes of the OIDs of a statement. */
  function Resolve(query: string, given: seq<nat>, inferred: Option<seq<nat>>): seq<nat>
  {
    Default(Fill(Special(query, Counted(query, given)), if IsInsert(query) then inferred else None))
  }

  /** Without OIDs from the client, the placeholders of the query are counted. */
  function Counted(query: string, given: seq<nat>): (oids: seq<nat>)
    ensures given != [] ==> oids == given
    ensures given == [] ==> |oids| == Placeholders.HighestParam(Placeholders.Cut(query))
  {
    if given == [] then seq(Placeholders.HighestParam(Placeholders.Cut(query)), _ => 0) else given
  }

  predicate IsTypeLookup(query: string)
  {
    Contains(ToUpper(query), "PG_TYPE") && Contains(ToUpper(query), ".OID")
  }

  predicate IsInsert(query: string)
  {
    Contains(ToUpper(query), "INSERT INTO")
  }

  /** A look-up in pg_type by oid takes an oid. */
  function Special(query: string, oids: seq<nat>): (out: seq<nat>)
    ensures |out| == |oids|
  {
    if oids == [0] && IsTypeLookup(query) then [OID_OID] else oids
  }

  /** Unknown OIDs take the inferred ones. */
  function Fill(oids: seq<nat>, inferred: Option<seq<nat>>): (out: seq<nat>)
    ensures |out| == |oids|
    ensures forall i :: 0 <= i < |oids| ==>
      out[i] == if oids[i] == 0 && inferred.Some? && i < |inferred.value| then inferred.value[i] else oids[i]
  {
    seq(|oids|, i requires 0 <= i < |oids| =>
      if oids[i] == 0 && inferred.Some? && i < |inferred.value| then inferred.value[i] else oids[i])
  }

  /** What is still unknown is text. */
  function Default(oids: seq<nat>): (out: seq<nat>)
    ensures |out| == |oids|
    ensures forall i :: 0 <= i < |oids| ==> out[i] == if oids[i] == 0 then OID_TEXT else oids[i]
  {
    seq(|oids|, i requires 0 <= i < |oids| => if oids[i] == 0 then OID_TEXT else oids[i])
  }

  /** preparedStmt: the slice of OIDs is shared with every portal bound to the statement. */
  class PreparedStmt {
    const query: string
    var paramOids: array<nat>

    constructor (query: string, oids: seq<nat>)
      ensures this.query == query && fresh(paramOids) && paramOids[..] == oids
    {
      this.query := query;
      paramOids := new nat[|oids|](i requires 0 <= i < |oids| => oids[i]);
    }

    /**
     * The first half of handleDescribe: the list sent in ParameterDescription is the list stored.
     * OIDs given by the client are overwritten where they lie.
     */
    method DescribeParameters(inferred: Option<seq<nat>>) returns (sent: seq<nat>)
      modifies this, paramOids
      ensures sent == paramOids[..] == Resolve(query, old(paramOids[..]), inferred)
      ensures paramOids == old(paramOids) || fresh(paramOids)
      ensures old(paramOids.Length) > 1 ==> paramOids == old(paramOids)
    {
      hide Placeholders.Cut, Placeholders.HighestParam, IsTypeLookup, IsInsert;
      var oids := paramOids;
      if oids.Length == 0 {
        var counted := Placeholders.CountParams(query);
        oids := new nat[|counted|](i requires 0 <= i < |counted| => counted[i]);
      }
      assert oids[..] == Counted(query, old(paramOids[..]));
      if oids.Length == 1 && oids[0] == 0 {
        assert oids[..] == [0];
        if IsTypeLookup(query) {
          oids := new nat[] [OID_OID];
        }
      }
      ghost var special := Special(query, Counted(query, old(paramOids[..])));
      assert oids[..] == special;
      if IsInsert(query) && inferred.Some? {
        FillIn(oids, inferred.value);
      }
      assert oids[..] == Fill(special, if IsInsert(query) then inferred else None);
      DefaultToText(oids);
      sent := oids[..];
      paramOids := oids;
    }
  }

  method FillIn(oids: array<nat>, inferred: seq<nat>)
    modifies oids
    ensures oids[..] == Fill(old(oids[..]), Some(inferred))
  {
    for i := 0 to |inferred|
      invariant forall k :: 0 <= k < oids.Length && k < i ==>
        oids[k] == if old(oids[k]) == 0 then inferred[k] else old(oids[k])
      invariant forall k :: i <= k < oids.Length ==> oids[k] == old(oids[k])
    {
      if i < oids.Length && oids[i] == 0 {
        oids[i] := inferred[i];
      }
    }
  }

  method DefaultToText(oids: array<nat>)
    modifies oids
    ensures oids[..] == Default(old(oids[..]))
  {
    for i := 0 to oids.Length
      invariant forall k :: 0 <= k < i ==> oids[k] == if old(oids[k]) == 0 then OID_TEXT else old(oids[k])
      invariant forall k :: i <= k < oids.Length ==> oids[k] == old(oids[k])
    {
      if oids[i] == 0 {
        oids[i] := OID_TEXT;
      }
    }
  }

  // ---- What a Describe promises ----

  /** No OID sent is 0, and there is one a parameter: as many as given, else the highest placeholder. */
  lemma NoneUnknown(query: string, given: seq<nat>, inferred: Option<seq<nat>>)
    ensures var sent := Resolve(query, given, inferred);
      && (forall i :: 0 <= i < |sent| ==> sent[i] != 0)
      && |sent| == if given != [] then |given| else Placeholders.HighestParam(Placeholders.Cut(query))
  {
    hide Placeholders.Cut, Placeholders.HighestParam, Contains, ToUpper;
  }

  /** Known OIDs from the client are kept; the others are pg_type's oid, the inferred type, or text. */
  lemma GivenKept(query: string, given: seq<nat>, inferred: Option<seq<nat>>, i: nat)
    requires i < |given|
    ensures var sent := Resolve(query, given, inferred);
      && |sent| == |given|
      && sent[i] == if given[i] != 0 then given[i]
                    else if |given| == 1 && IsTypeLookup(query) then OID_OID
                    else if IsInsert(query) && inferred.Some? && i < |inferred.value| && inferred.value[i] != 0 then inferred.value[i]
                    else OID_TEXT
  {
    hide Placeholders.Cut, Placeholders.HighestParam, IsTypeLookup, IsInsert;
    assert given == [0] <==> |given| == 1 && given[0] == 0;
  }

  /** Without OIDs from the client the same holds for every parameter up to the highest placeholder. */
  lemma CountedKept(query: string, inferred: Option<seq<nat>>, i: nat)
    requires i < Placeholders.HighestParam(Placeholders.Cut(query))
    ensures var n := Placeholders.HighestParam(Placeholders.Cut(query)); var sent := Resolve(query, [], inferred);
      && |sent| == n
      && sent[i] == if n == 1 && IsTypeLookup(query) then OID_OID
                    else if IsInsert(query) && inferred.Some? && i < |inferred.value| && inferred.value[i] != 0 then inferred.value[i]
                    else OID_TEXT
  {
    hide Placeholders.Cut, Placeholders.HighestParam, IsTypeLookup, IsInsert;
    var n := Placeholders.HighestParam(Placeholders.Cut(query));
    assert Counted(query, []) == seq(n, _ => 0);
    assert Counted(query, []) == [0] <==> n == 1;
  }

  /** The two kinds of query that say something about types, by their words in any case. */
  lemma TypeWords(query: string)
    ensures IsTypeLookup(query) <==> Mentions(query, "PG_TYPE") && Mentions(query, ".OID")
    ensures IsInsert(query) <==> Mentions(query, "INSERT INTO")
  {
    hide Contains, Mentions;
    UpperContains(query, "PG_TYPE");
    UpperContains(query, ".OID");
    UpperContains(query, "INSERT INTO");
  }

  /** Resolving a resolved list adds nothing to it, the empty list of a query without placeholders included. */
  lemma SameLength(query: string, given: seq<nat>, inferred: Option<seq<nat>>)
    requires given != [] || Placeholders.HighestParam(Placeholders.Cut(query)) == 0
    ensures |Resolve(query, given, inferred)| == |given|
  {
    hide Placeholders.Cut, Placeholders.HighestParam, IsTypeLookup, IsInsert;
  }

  /** A second Describe sends the list of the first, whatever the catalog answers by then. */
  lemma SecondDescribe(query: string, given: seq<nat>, first: Option<seq<nat>>, second: Option<seq<nat>>)
    ensures Resolve(query, Resolve(query, given, first), second) == Resolve(query, given, first)
  {
    hide Placeholders.Cut, Placeholders.HighestParam, Contains, ToUpper, Resolve;
    var sent := Resolve(query, given, first);
    NoneUnknown(query, given, first);
    NoneUnknown(query, sent, second);
    SameLength(query, sent, second);
    forall i | 0 <= i < |sent|
      ensures Resolve(query, sent, second)[i] == sent[i]
    {
      GivenKept(query, sent, second, i);
    }
  }
}
