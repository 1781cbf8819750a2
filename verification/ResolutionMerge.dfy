/**
 * ResolveAllParticipations and FetchAndMergeParticipationsWithResolutions of resolution.go:
 * nested loops that write the resolved data into the participations.
 */
module ResolutionMerge {
  import opened Wrappers

  type Uuid = nat

  datatype Json = Null | Bool(b: bool) | Number(n: int) | Text(s: string) | List(items: seq<Json>) | Object(fields: map<string, Json>)

  type MetaData = map<string, Json>

  /** A participation; `prevData` is None for a nil map, `rest` stands for all its other fields. */
  datatype Participation<Rest> = Participation(id: Uuid, prevData: Option<MetaData>, rest: Rest)

  const ID_FIELD := "courseParticipationID"

  datatype ResolveError = FetchFailed | DecodeFailed | IdNotAString | IdNotAUuid

  /** A resolution and what fetching it answered: the decoded items, or an error. */
  datatype Resolution = Resolution(dtoName: string, reply: Result<seq<MetaData>, ResolveError>)

  /** uuid.Parse. */
  type Parser = string -> Option<Uuid>

  // ------------------------------------------------------- one resolution

  function ItemId(item: MetaData, parse: Parser): Result<Uuid, ResolveError> {
    if ID_FIELD !in item || !item[ID_FIELD].Text? then Failure(IdNotAString)
    else
      match parse(item[ID_FIELD].s)
      case None => Failure(IdNotAUuid)
      case Some(id) => Success(id)
  }

  /** An item is read for a participation exactly when it names it in a text that parses; otherwise the error tells what is wrong with it. */
  lemma ItemIdIs(item: MetaData, parse: Parser, id: Uuid)
    ensures ItemId(item, parse) == Success(id) <==>
            && "courseParticipationID" in item && item["courseParticipationID"].Text?
            && parse(item["courseParticipationID"].s) == Some(id)
    ensures ItemId(item, parse) == Failure(IdNotAString) <==>
            "courseParticipationID" !in item || !item["courseParticipationID"].Text?
    ensures ItemId(item, parse) == Failure(IdNotAUuid) <==>
            && "courseParticipationID" in item && item["courseParticipationID"].Text?
            && parse(item["courseParticipationID"].s) == None
  {
  }

  /** Go's map lookup: a missing key reads as nil. */
  function Field(item: MetaData, name: string): Json {
    if name in item then item[name] else Null
  }

  /** The item at `k` is the last one with this id. */
  ghost predicate LastItem(items: seq<MetaData>, parse: Parser, id: Uuid, k: nat) {
    && k < |items| && ItemId(items[k], parse) == Success(id)
    && forall j | k < j < |items| :: ItemId(items[j], parse) != Success(id)
  }

  /** The resolved data: each id of the items with the field of its last item. */
  ghost predicate IsResolved(data: map<Uuid, Json>, items: seq<MetaData>, parse: Parser, dtoName: string) {
    && (forall id: Uuid :: id in data <==> exists k: nat :: LastItem(items, parse, id, k))
    && (forall id: Uuid, k: nat | LastItem(items, parse, id, k) ::
          id in data && data[id] == if dtoName in items[k] then items[k][dtoName] else Null)
  }

  /** The first item whose id cannot be read decides the error. */
  ghost predicate FirstBadItem(items: seq<MetaData>, parse: Parser, k: nat) {
    && k < |items| && ItemId(items[k], parse).Failure?
    && forall j | 0 <= j < k :: ItemId(items[j], parse).Success?
  }

  lemma LastItemOneMore(items: seq<MetaData>, parse: Parser, n: nat, id: Uuid, k: nat)
    requires n < |items| && ItemId(items[n], parse).Success?
    ensures LastItem(items[..n + 1], parse, id, k) <==>
            if ItemId(items[n], parse).value == id then k == n else LastItem(items[..n], parse, id, k)
  {
    var more := items[..n + 1];
    assert more[n] == items[n] && forall j | 0 <= j < n :: more[j] == items[..n][j] == items[j];
  }

  lemma ResolvedOneMore(data: map<Uuid, Json>, items: seq<MetaData>, parse: Parser, dtoName: string, n: nat)
    requires n < |items| && ItemId(items[n], parse).Success?
    requires IsResolved(data, items[..n], parse, dtoName)
    ensures IsResolved(data[ItemId(items[n], parse).value := Field(items[n], dtoName)], items[..n + 1], parse, dtoName)
  {
    var here := ItemId(items[n], parse).value;
    var data' := data[here := Field(items[n], dtoName)];
    forall id: Uuid, k: nat
      ensures LastItem(items[..n + 1], parse, id, k) <==> if here == id then k == n else LastItem(items[..n], parse, id, k)
    {
      LastItemOneMore(items, parse, n, id, k);
    }
    hide ItemId;
    assert forall k | 0 <= k < n :: items[..n + 1][k] == items[..n][k];
    assert LastItem(items[..n + 1], parse, here, n);
    hide LastItem;
    forall id: Uuid, k: nat {:trigger LastItem(items[..n + 1], parse, id, k)} | LastItem(items[..n + 1], parse, id, k)
      ensures id in data' && data'[id] == Field(items[..n + 1][k], dtoName)
    {
      if id != here {
        LastItemInRange(items[..n], parse, id, k);
      }
    }
  }

  lemma LastItemInRange(items: seq<MetaData>, parse: Parser, id: Uuid, k: nat)
    requires LastItem(items, parse, id, k)
    ensures k < |items|
  {
  }

  /** Why a resolution yields no data. */
  ghost predicate FailsWith(res: Resolution, parse: Parser, e: ResolveError) {
    if res.reply.Failure? then e == res.reply.error
    else exists k: nat :: FirstBadItem(res.reply.value, parse, k) && e == ItemId(res.reply.value[k], parse).error
  }

  method ResolveAllParticipations(res: Resolution, parse: Parser) returns (r: Result<map<Uuid, Json>, ResolveError>)
    ensures r.Success? <==> Resolves(res, parse)
    ensures r.Success? ==> IsResolved(r.value, res.reply.value, parse, res.dtoName)
    ensures r.Failure? ==> FailsWith(res, parse, r.error)
  {
    if res.reply.Failure? {
      return Failure(res.reply.error);
    }
    var items := res.reply.value;
    var data: map<Uuid, Json> := map[];
    for n := 0 to |items|
      invariant forall k | 0 <= k < n :: ItemId(items[k], parse).Success?
      invariant IsResolved(data, items[..n], parse, res.dtoName)
    {
      var id := ItemId(items[n], parse);
      if id.Failure? {
        assert FirstBadItem(items, parse, n);
        return Failure(id.error);
      }
      ResolvedOneMore(data, items, parse, res.dtoName, n);
      data := data[id.value := Field(items[n], res.dtoName)];
    }
    assert items[..|items|] == items;
    return Success(data);
  }

  // ------------------------------------------------------------- the merge

  /** The reply of a resolution can be turned into data. */
  ghost predicate Resolves(res: Resolution, parse: Parser) {
    res.reply.Success? && forall k | 0 <= k < |res.reply.value| :: ItemId(res.reply.value[k], parse).Success?
  }

  /** Item `k` of resolution `i` supplies the value for a participation's field. */
  ghost predicate Supplies(resolutions: seq<Resolution>, parse: Parser, id: Uuid, dtoName: string, i: nat, k: nat) {
    && i < |resolutions| && resolutions[i].dtoName == dtoName
    && resolutions[i].reply.Success? && LastItem(resolutions[i].reply.value, parse, id, k)
  }

  /** The last resolution of that name whose items hold the participation. */
  ghost predicate LastSupplies(resolutions: seq<Resolution>, parse: Parser, id: Uuid, dtoName: string, i: nat, k: nat) {
    && Supplies(resolutions, parse, id, dtoName, i, k)
    && forall j: nat, l: nat | j > i :: !Supplies(resolutions, parse, id, dtoName, j, l)
  }

  ghost predicate Touched(resolutions: seq<Resolution>, parse: Parser, id: Uuid) {
    exists name: string, i: nat, k: nat :: Supplies(resolutions, parse, id, name, i, k)
  }

  function FieldOf(prevData: Option<MetaData>, name: string): Option<Json> {
    if prevData.Some? && name in prevData.value then Some(prevData.value[name]) else None
  }

  /** One participation after the merge: every field from its last supplier, or as it was. */
  ghost predicate IsMerged<Rest>(before: Participation<Rest>, after: Participation<Rest>, resolutions: seq<Resolution>, parse: Parser) {
    && after.id == before.id && after.rest == before.rest
    && (forall name: string, i: nat, k: nat | LastSupplies(resolutions, parse, before.id, name, i, k) ::
          && after.prevData.Some? && name in after.prevData.value
          && after.prevData.value[name] == var item := resolutions[i].reply.value[k]; if name in item then item[name] else Null)
    && (forall name: string | (forall i: nat, k: nat :: !Supplies(resolutions, parse, before.id, name, i, k)) ::
          FieldOf(after.prevData, name) == FieldOf(before.prevData, name))
    && (after.prevData.Some? <==> before.prevData.Some? || Touched(resolutions, parse, before.id))
  }

  /** One participation after one resolution with the given data. */
  function WithData<Rest>(p: Participation<Rest>, dtoName: string, data: map<Uuid, Json>): Participation<Rest> {
    if p.id in data then
      var prevData := if p.prevData.Some? then p.prevData.value else map[];
      p.(prevData := Some(prevData[dtoName := data[p.id]]))
    else p
  }

  lemma SuppliesOneMore(resolutions: seq<Resolution>, parse: Parser, n: nat, id: Uuid, name: string, i: nat, k: nat)
    requires n < |resolutions|
    ensures Supplies(resolutions[..n + 1], parse, id, name, i, k) <==>
            if i == n then resolutions[n].dtoName == name && resolutions[n].reply.Success? && LastItem(resolutions[n].reply.value, parse, id, k)
            else Supplies(resolutions[..n], parse, id, name, i, k)
  {
    hide LastItem;
    if i < n {
      assert resolutions[..n + 1][i] == resolutions[..n][i] == resolutions[i];
    } else if i == n {
      assert resolutions[..n + 1][n] == resolutions[n];
    }
  }

  lemma SuppliesRange(resolutions: seq<Resolution>, parse: Parser, id: Uuid, name: string, i: nat, k: nat)
    requires Supplies(resolutions, parse, id, name, i, k)
    ensures i < |resolutions| && resolutions[i].reply.Success? && k < |resolutions[i].reply.value|
  {
  }

  /** A later resolution overrides exactly the field it supplies. */
  lemma MergedOneMore<Rest>(before: Participation<Rest>, p: Participation<Rest>, resolutions: seq<Resolution>, n: nat,
                            parse: Parser, data: map<Uuid, Json>)
    requires n < |resolutions| && resolutions[n].reply.Success?
    requires IsResolved(data, resolutions[n].reply.value, parse, resolutions[n].dtoName)
    requires IsMerged(before, p, resolutions[..n], parse)
    ensures IsMerged(before, WithData(p, resolutions[n].dtoName, data), resolutions[..n + 1], parse)
  {
    var id, here, items := before.id, resolutions[n].dtoName, resolutions[n].reply.value;
    var done, more := resolutions[..n], resolutions[..n + 1];
    var after := WithData(p, here, data);
    forall name: string, i: nat, k: nat
      ensures Supplies(more, parse, id, name, i, k) <==>
              if i == n then here == name && LastItem(items, parse, id, k) else Supplies(done, parse, id, name, i, k)
    {
      SuppliesOneMore(resolutions, parse, n, id, name, i, k);
    }
    if id in data {
      var k: nat :| LastItem(items, parse, id, k);
      assert Supplies(more, parse, id, here, n, k);
    }
    forall name: string, i: nat, k: nat | LastSupplies(more, parse, id, name, i, k)
      ensures FieldOf(after.prevData, name) == Some(Field(more[i].reply.value[k], name))
    {
      MergedField(before, p, resolutions, n, parse, data, name, i, k);
    }
    forall name: string | (forall i: nat, k: nat :: !Supplies(more, parse, id, name, i, k))
      ensures FieldOf(after.prevData, name) == FieldOf(before.prevData, name)
    {
      forall i: nat, k: nat
        ensures !Supplies(done, parse, id, name, i, k)
      {
        if i == n {
          NotSuppliedBeyond(done, parse, id, name, i, k);
        } else {
          assert !Supplies(more, parse, id, name, i, k);
        }
      }
    }
    MergedPresence(before, p, resolutions, n, parse, data);
  }

  lemma NotSuppliedBeyond(resolutions: seq<Resolution>, parse: Parser, id: Uuid, name: string, i: nat, k: nat)
    requires i >= |resolutions|
    ensures !Supplies(resolutions, parse, id, name, i, k)
  {
  }

  lemma MergedField<Rest>(before: Participation<Rest>, p: Participation<Rest>, resolutions: seq<Resolution>, n: nat,
                          parse: Parser, data: map<Uuid, Json>, name: string, i: nat, k: nat)
    requires n < |resolutions| && resolutions[n].reply.Success?
    requires IsResolved(data, resolutions[n].reply.value, parse, resolutions[n].dtoName)
    requires IsMerged(before, p, resolutions[..n], parse)
    requires LastSupplies(resolutions[..n + 1], parse, before.id, name, i, k)
    ensures FieldOf(WithData(p, resolutions[n].dtoName, data).prevData, name) == Some(Field(resolutions[..n + 1][i].reply.value[k], name))
  {
    var id, items := before.id, resolutions[n].reply.value;
    SuppliesOneMore(resolutions, parse, n, id, name, i, k);
    if i == n {
      assert id in data && data[id] == Field(items[k], name);
    } else {
      assert LastSupplies(resolutions[..n], parse, id, name, i, k) by {
        forall j: nat, l: nat | j > i
          ensures !Supplies(resolutions[..n], parse, id, name, j, l)
        {
          SuppliesOneMore(resolutions, parse, n, id, name, j, l);
          if j == n {
            NotSuppliedBeyond(resolutions[..n], parse, id, name, j, l);
          }
        }
      }
      SuppliesRange(resolutions[..n], parse, id, name, i, k);
      if name == resolutions[n].dtoName && id in data {
        var l: nat :| LastItem(items, parse, id, l);
        SuppliesOneMore(resolutions, parse, n, id, name, n, l);
      }
    }
  }

  lemma MergedPresence<Rest>(before: Participation<Rest>, p: Participation<Rest>, resolutions: seq<Resolution>, n: nat,
                             parse: Parser, data: map<Uuid, Json>)
    requires n < |resolutions| && resolutions[n].reply.Success?
    requires IsResolved(data, resolutions[n].reply.value, parse, resolutions[n].dtoName)
    requires IsMerged(before, p, resolutions[..n], parse)
    ensures WithData(p, resolutions[n].dtoName, data).prevData.Some? <==>
            before.prevData.Some? || Touched(resolutions[..n + 1], parse, before.id)
  {
    var id, here, items := before.id, resolutions[n].dtoName, resolutions[n].reply.value;
    var done, more := resolutions[..n], resolutions[..n + 1];
    if name: string, i: nat, k: nat :| Supplies(more, parse, id, name, i, k) {
      SuppliesOneMore(resolutions, parse, n, id, name, i, k);
    }
    if name: string, i: nat, k: nat :| Supplies(done, parse, id, name, i, k) {
      SuppliesRange(done, parse, id, name, i, k);
      SuppliesOneMore(resolutions, parse, n, id, name, i, k);
    }
    if id in data {
      var k: nat :| LastItem(items, parse, id, k);
      SuppliesOneMore(resolutions, parse, n, id, here, n, k);
    }
  }

  lemma MergedNone<Rest>(p: Participation<Rest>, parse: Parser)
    ensures IsMerged(p, p, [], parse)
  {
  }

  /** The inner loop: the data of the n-th resolution goes into the participations. */
  method MergeInto<Rest>(ps: array<Participation<Rest>>, ghost before: seq<Participation<Rest>>,
                         resolutions: seq<Resolution>, n: nat, parse: Parser, data: map<Uuid, Json>)
    requires n < |resolutions| && resolutions[n].reply.Success? && ps.Length == |before|
    requires IsResolved(data, resolutions[n].reply.value, parse, resolutions[n].dtoName)
    requires forall j | 0 <= j < ps.Length :: IsMerged(before[j], ps[j], resolutions[..n], parse)
    modifies ps
    ensures forall j | 0 <= j < ps.Length :: IsMerged(before[j], ps[j], resolutions[..n + 1], parse)
  {
    hide IsResolved, IsMerged;
    for idx := 0 to ps.Length
      invariant forall j | 0 <= j < idx :: IsMerged(before[j], ps[j], resolutions[..n + 1], parse)
      invariant forall j | idx <= j < ps.Length :: IsMerged(before[j], ps[j], resolutions[..n], parse)
    {
      MergedOneMore(before[idx], ps[idx], resolutions, n, parse, data);
      var participation := ps[idx];
      if participation.id in data {
        if participation.prevData.None? {
          participation := participation.(prevData := Some(map[]));
        }
        participation := participation.(prevData := Some(participation.prevData.value[resolutions[n].dtoName := data[participation.id]]));
        ps[idx] := participation;
      }
    }
  }

  /**
   * The nested loops: count, order and all other fields stay, and every participation is merged. The first
   * resolution that cannot be resolved makes the whole call fail with its error.
   */
  method FetchAndMerge<Rest>(participations: seq<Participation<Rest>>, resolutions: seq<Resolution>, parse: Parser)
    returns (r: Result<seq<Participation<Rest>>, ResolveError>)
    ensures r.Success? <==> forall i | 0 <= i < |resolutions| :: Resolves(resolutions[i], parse)
    ensures r.Success? ==> |r.value| == |participations|
    ensures r.Success? ==> forall j | 0 <= j < |participations| :: IsMerged(participations[j], r.value[j], resolutions, parse)
    ensures r.Failure? ==> exists i | 0 <= i < |resolutions| ::
              FailsWith(resolutions[i], parse, r.error) && !Resolves(resolutions[i], parse)
              && forall l | 0 <= l < i :: Resolves(resolutions[l], parse)
  {
    hide FailsWith, IsResolved, Resolves, IsMerged;
    var count := |participations|;
    var ps := new Participation<Rest>[count](j requires 0 <= j < count => participations[j]);
    forall j | 0 <= j < count
      ensures IsMerged(participations[j], ps[j], resolutions[..0], parse)
    {
      MergedNone(participations[j], parse);
      assert resolutions[..0] == [];
    }
    for n := 0 to |resolutions|
      invariant ps.Length == count
      invariant forall i | 0 <= i < n :: Resolves(resolutions[i], parse)
      invariant forall j | 0 <= j < count :: IsMerged(participations[j], ps[j], resolutions[..n], parse)
    {
      var resolved := ResolveAllParticipations(resolutions[n], parse);
      if resolved.Failure? {
        return Failure(resolved.error);
      }
      ResolvesReply(resolutions[n], parse);
      MergeInto(ps, participations, resolutions, n, parse, resolved.value);
    }
    assert resolutions[..|resolutions|] == resolutions;
    return Success(ps[..]);
  }

  lemma ResolvesReply(res: Resolution, parse: Parser)
    requires Resolves(res, parse)
    ensures res.reply.Success?
  {
  }

  // ------------------------------------------- the merge is fully determined

  lemma {:induction false} LastSupplier(resolutions: seq<Resolution>, parse: Parser, id: Uuid, name: string, i: nat, k: nat)
    returns (j: nat, l: nat)
    requires Supplies(resolutions, parse, id, name, i, k)
    ensures LastSupplies(resolutions, parse, id, name, j, l)
    decreases |resolutions| - i
  {
    if j': nat, l': nat :| j' > i && Supplies(resolutions, parse, id, name, j', l') {
      j, l := LastSupplier(resolutions, parse, id, name, j', l');
    } else {
      j, l := i, k;
    }
  }

  /** There is one merged form of a participation: no field is left open. */
  lemma MergedIsUnique<Rest>(before: Participation<Rest>, a: Participation<Rest>, b: Participation<Rest>,
                             resolutions: seq<Resolution>, parse: Parser)
    requires IsMerged(before, a, resolutions, parse) && IsMerged(before, b, resolutions, parse)
    ensures a == b
  {
    forall name: string
      ensures FieldOf(a.prevData, name) == FieldOf(b.prevData, name)
    {
      if i: nat, k: nat :| Supplies(resolutions, parse, before.id, name, i, k) {
        var j, l := LastSupplier(resolutions, parse, before.id, name, i, k);
      }
    }
    if a.prevData.Some? {
      SameFields(a.prevData.value, b.prevData.value);
    }
  }

  lemma SameFields(a: MetaData, b: MetaData)
    requires forall name: string :: FieldOf(Some(a), name) == FieldOf(Some(b), name)
    ensures a == b
  {
    assert forall name: string :: (name in a) == FieldOf(Some(a), name).Some?;
    assert forall name: string :: (name in b) == FieldOf(Some(b), name).Some?;
  }
}
