/**
 * The composition scan of `get_source_id` (backup.py:16-40): find the id
 * of a named player in the roster of a fight. The GraphQL request is not
 * modelled; its outcome arrives as a `SourceResponse`.
 */
module Resolver {
  import opened Wrappers

  /** One `composition` entry of the fight table. */
  datatype CompositionEntry = CompositionEntry(name: string, id: int)

  /**
   * The response to the source-id query: its status code and, when the
   * table has one, its `composition` list.
   */
  datatype SourceResponse = SourceResponse(statusCode: int, composition: Option<seq<CompositionEntry>>)

  /**
   * The three ways the lookup fails. In the source all three end as
   * RuntimeError("No active exception to reraise"): no match raises at
   * backup.py:30, re-raised by the `except` at :36; the other two reach the
   * bare `raise` at :40.
   */
  datatype ResolveError =
    | RequestFailed(statusCode: int)
    | NoComposition
    | PlayerNotFound(name: string)

  /** Reference definition: the id of the first entry named exactly `name`. */
  function FindId(entries: seq<CompositionEntry>, name: string): (r: Option<int>)
    ensures r.Some? <==> exists k :: 0 <= k < |entries| && entries[k].name == name
    ensures r.Some? ==>
              exists k :: 0 <= k < |entries| && entries[k].name == name && r.value == entries[k].id
                && forall j :: 0 <= j < k ==> entries[j].name != name
  {
    if entries == [] then None
    else if entries[0].name == name then Some(entries[0].id)
    else
      var rest := FindId(entries[1..], name);
      assert forall k :: 1 <= k < |entries| ==> entries[k] == entries[1..][k - 1];
      rest
  }

  /** Entries after a match are never looked at: earlier duplicates win. */
  lemma {:induction false} EarlierMatchWins(front: seq<CompositionEntry>, back: seq<CompositionEntry>, name: string)
    requires FindId(front, name).Some?
    ensures FindId(front + back, name) == FindId(front, name)
  {
    if front[0].name != name {
      assert (front + back)[1..] == front[1..] + back;
      EarlierMatchWins(front[1..], back, name);
    }
  }

  /** Entries with other names are skipped over. */
  lemma {:induction false} OtherNamesSkipped(front: seq<CompositionEntry>, back: seq<CompositionEntry>, name: string)
    requires forall k :: 0 <= k < |front| ==> front[k].name != name
    ensures FindId(front + back, name) == FindId(back, name)
  {
    if front != [] {
      assert (front + back)[1..] == front[1..] + back;
      OtherNamesSkipped(front[1..], back, name);
    } else {
      assert front + back == back;
    }
  }

  /**
   * `get_source_id` after the request: a non-200 status, a missing
   * `composition` or no entry of that name raises; otherwise the scan
   * returns at the first exact match.
   */
  method GetSourceId(response: SourceResponse, name: string) returns (r: Result<int, ResolveError>)
    ensures response.statusCode != 200 ==> r == Failure(RequestFailed(response.statusCode))
    ensures response.statusCode == 200 && response.composition.None? ==> r == Failure(NoComposition)
    ensures response.statusCode == 200 && response.composition.Some? ==>
              r == match FindId(response.composition.value, name)
                   case Some(id) => Success(id)
                   case None => Failure(PlayerNotFound(name))
  {
    if response.statusCode == 200 {
      if response.composition.Some? {
        var composition := response.composition.value;
        for i := 0 to |composition|
          invariant FindId(composition, name) == FindId(composition[i..], name)
        {
          var entry := composition[i];
          assert composition[i..] == [entry] + composition[i + 1..];
          if entry.name == name {
            return Success(entry.id);
          }
        }
        return Failure(PlayerNotFound(name));
      } else {
        return Failure(NoComposition);
      }
    }
    return Failure(RequestFailed(response.statusCode));
  }
}
