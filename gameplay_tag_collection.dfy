/** The tag registry (Runtime/GameplayTagCollection.cs) as a heap object: a
    dictionary from id to tag object, the grow-only list of allocated ids and
    the snapshot list of the dictionary's values. Every operation is tied to
    the value-level functions of TagRegistrySpec. */
module GameplayTagRegistry {
  import opened GameplayTagEntity
  import opened TagPath
  import opened TagRegistrySpec

  /** The dictionary after inserting each object from position i on under its
      id, skipping ids that are already keys, as AddTag(tag, false) does. */
  ghost function StoreAbsent(m: map<int, GameplayTag>, list: seq<GameplayTag>, keys: seq<int>, i: nat): map<int, GameplayTag>
    requires |keys| == |list| && i <= |list|
    decreases |list| - i
  {
    if i == |list| then m
    else StoreAbsent(if keys[i] in m then m else m[keys[i] := list[i]], list, keys, i + 1)
  }

  /** A dictionary of objects with each object replaced by its current field values. */
  ghost function ViewOf(m: map<int, GameplayTag>): map<int, TagValue>
    reads m.Values
  {
    map k | k in m :: m[k].Value()
  }

  /** Inserting absent ids never replaces an entry that is already there. */
  lemma {:induction false} StoreAbsentKeeps(m: map<int, GameplayTag>, list: seq<GameplayTag>, keys: seq<int>, i: nat)
    requires |keys| == |list| && i <= |list|
    ensures forall k :: k in m ==> k in StoreAbsent(m, list, keys, i) && StoreAbsent(m, list, keys, i)[k] == m[k]
    decreases |list| - i
  {
    if i < |list| {
      StoreAbsentKeeps(if keys[i] in m then m else m[keys[i] := list[i]], list, keys, i + 1);
    }
  }

  /** Storing the chain's objects from i on gives, in values, InsertNew of the plan
      from i on, when the ids before the created part are keys already and the
      created objects hold the plan's new tags. */
  lemma {:induction false} StoreAbsentView(m: map<int, GameplayTag>, list: seq<GameplayTag>, pl: Plan, comment: string, i: nat)
    requires |list| == |pl.chain| == |pl.tokens| && i <= |list| && pl.resolved <= |list|
    requires forall j :: i <= j < pl.resolved ==> pl.chain[j] in m
    requires forall j :: pl.resolved <= j < |list| ==> list[j].Value() == NewTag(pl, j, comment)
    ensures ViewOf(StoreAbsent(m, list, pl.chain, i)) == InsertNew(ViewOf(m), pl, i, comment)
    decreases |list| - i
  {
    if i < |list| {
      var v := NewTag(pl, i, comment);
      var next := if pl.chain[i] in m then m else m[pl.chain[i] := list[i]];
      assert ViewOf(next) == if v.id in ViewOf(m) then ViewOf(m) else ViewOf(m)[v.id := v];
      StoreAbsentView(next, list, pl, comment, i + 1);
    }
  }

  /** Storing the whole chain gives, in values, the plan's insertion of its
      created part. */
  lemma StoreChainView(m: map<int, GameplayTag>, list: seq<GameplayTag>, pl: Plan, comment: string)
    requires |list| == |pl.chain| == |pl.tokens| && pl.resolved <= |list|
    requires forall j :: 0 <= j < pl.resolved ==> pl.chain[j] in m
    requires forall j :: pl.resolved <= j < |list| ==> list[j].Value() == NewTag(pl, j, comment)
    ensures ViewOf(StoreAbsent(m, list, pl.chain, 0)) == InsertNew(ViewOf(m), pl, pl.resolved, comment)
  {
    StoreAbsentView(m, list, pl, comment, 0);
    InsertNewSkip(ViewOf(m), pl, 0, pl.resolved, comment);
  }

  class GameplayTagCollection {
    /** The public, serialised snapshot of the dictionary's values. */
    var tags: seq<GameplayTag>
    /** Every id handed out or loaded; it only grows. */
    var ids: seq<int>
    /** The dictionary from id to tag object. */
    var tagsById: map<int, GameplayTag>

    /** How many times the registry was written to its file. */
    ghost var writeCount: nat
    /** How many times the change notification fired. */
    ghost var notifyCount: nat

    /** The dictionary with each object replaced by its current field values. */
    ghost function DicView(): map<int, TagValue>
      reads this`tagsById, tagsById.Values
    {
      ViewOf(tagsById)
    }

    /** Every object is stored under its own id. */
    ghost predicate Valid()
      reads this`tagsById, tagsById.Values
    {
      forall k :: k in tagsById ==> tagsById[k].id == k
    }

    /** Every key is in the id list, so GenerateNewID never hands out a key. Loading
        establishes it; only AddTag(tag) with an id missing from the list breaks it. */
    ghost predicate IdsCoverKeys()
      reads this`ids, this`tagsById
    {
      forall k :: k in tagsById ==> k in ids
    }

    /** `tags` lists exactly the dictionary's objects, each under its own id. */
    ghost predicate Synced()
      reads this`tags, this`tagsById, set t | t in tags
    {
      && |tags| == |tagsById|
      && (forall i :: 0 <= i < |tags| ==> tags[i].id in tagsById && tagsById[tags[i].id] == tags[i])
      && (forall k :: k in tagsById ==> tagsById[k] in tags)
    }

    /** When `tags` is in sync, its values are exactly the dictionary's values. */
    lemma SyncedListsValues()
      requires Valid() && Synced()
      ensures ListsValues(ValuesOf(tags), DicView())
    {
      var vs := ValuesOf(tags);
      var d := DicView();
      forall i | 0 <= i < |vs|
        ensures vs[i].id in d && d[vs[i].id] == vs[i]
      {
        assert d[tags[i].id] == tags[i].Value();
      }
      forall k | k in d
        ensures d[k] in vs
      {
        var i :| 0 <= i < |tags| && tags[i] == tagsById[k];
        assert vs[i] == d[k];
      }
      assert d.Keys == tagsById.Keys;
    }

    /** A consistent registry's values are stored under their own ids, so the
        value-level lemmas about key consistency apply to it. */
    lemma ValidKeyConsistent()
      requires Valid()
      ensures KeyConsistent(DicView())
    {
      forall k | k in DicView()
        ensures DicView()[k].id == k
      {
        assert DicView()[k] == tagsById[k].Value();
      }
    }

    /** Initialize: the loaded list becomes the snapshot, and each tag is recorded
        in the id list and stored under its id (duplicate ids would throw). */
    constructor (loaded: seq<GameplayTag>)
      requires forall i, j :: 0 <= i < j < |loaded| ==> loaded[i].id != loaded[j].id
      ensures tags == loaded
      ensures |ids| == |loaded| && forall i :: 0 <= i < |loaded| ==> ids[i] == loaded[i].id
      ensures forall i :: 0 <= i < |loaded| ==> loaded[i].id in tagsById && tagsById[loaded[i].id] == loaded[i]
      ensures forall k :: k in tagsById ==> tagsById[k] in loaded
      ensures Valid() && Synced() && IdsCoverKeys()
      ensures writeCount == 0 && notifyCount == 0
    {
      var idList: seq<int> := [];
      var dic: map<int, GameplayTag> := map[];
      var i := 0;
      while i < |loaded|
        invariant 0 <= i <= |loaded|
        invariant |idList| == i && forall j :: 0 <= j < i ==> idList[j] == loaded[j].id
        invariant forall j :: 0 <= j < i ==> loaded[j].id in dic && dic[loaded[j].id] == loaded[j]
        invariant forall k :: k in dic ==> dic[k].id == k && dic[k] in loaded[..i]
        invariant |dic| == i
      {
        assert loaded[i].id !in dic by {
          forall k | k in dic
            ensures k != loaded[i].id
          {
            var j :| 0 <= j < i && loaded[..i][j] == dic[k];
            assert loaded[j].id == k;
          }
        }
        assert loaded[..i + 1] == loaded[..i] + [loaded[i]];
        idList := idList + [loaded[i].id];
        dic := dic[loaded[i].id := loaded[i]];
        i := i + 1;
      }
      assert loaded[..i] == loaded;
      tags := loaded;
      ids := idList;
      tagsById := dic;
      writeCount := 0;
      notifyCount := 0;
      new;
    }

    /** LoadFromJson: "{}" clears the snapshot; any other text overwrites it with
        what the serializer decodes (passed in as `decoded`). */
    method LoadFromJson(json: string, decoded: seq<GameplayTag>)
      modifies this`tags
      ensures tags == if json == "{}" then [] else decoded
    {
      if json != "{}" {
        tags := decoded;
      } else {
        tags := [];
      }
    }

    /** `tagsDic.Values.ToList()`: the dictionary's objects in an enumeration order
        left open, recorded by the ghost `keys` (each key once). */
    method ValuesToList() returns (list: seq<GameplayTag>, ghost keys: seq<int>)
      ensures |list| == |keys| == |tagsById|
      ensures forall i :: 0 <= i < |keys| ==> keys[i] in tagsById && list[i] == tagsById[keys[i]]
      ensures forall k :: k in tagsById ==> k in keys
      ensures forall i :: 0 <= i < |list| ==> list[i] in tagsById.Values
      ensures forall k :: k in tagsById ==> tagsById[k] in list
    {
      list := [];
      keys := [];
      var rest := tagsById.Keys;
      ghost var done: set<int> := {};
      while rest != {}
        invariant rest !! done && rest + done == tagsById.Keys
        invariant |list| == |keys| == |done|
        invariant forall i :: 0 <= i < |keys| ==> keys[i] in done
        invariant forall i :: 0 <= i < |keys| ==> list[i] == tagsById[keys[i]]
        invariant forall k :: k in done ==> k in keys
        decreases |rest|
      {
        assert (forall k :: k !in rest) ==> rest == {};
        var key :| key in rest;
        list := list + [tagsById[key]];
        keys := keys + [key];
        rest := rest - {key};
        done := done + {key};
      }
      assert done == tagsById.Keys;
    }

    /** UpdateTagsArray: rebuilds the snapshot from the dictionary and fires the
        change notification. */
    method UpdateTagsArray()
      requires Valid()
      modifies this`tags, this`notifyCount
      ensures Synced()
      ensures notifyCount == old(notifyCount) + 1
    {
      var list, keys := ValuesToList();
      tags := list;
      notifyCount := notifyCount + 1;
      forall i | 0 <= i < |tags|
        ensures tags[i].id in tagsById && tagsById[tags[i].id] == tags[i]
      {
        assert tags[i] == tagsById[keys[i]];
        assert tagsById[keys[i]].id == keys[i];
      }
      forall k | k in tagsById
        ensures tagsById[k] in tags
      {
        var i :| 0 <= i < |keys| && keys[i] == k;
        assert tags[i] == tagsById[k];
      }
    }

    /** WriteToFile: refreshes the snapshot, then serialises it to the tag file;
        the write itself is recorded only by `writeCount`. */
    method WriteToFile()
      requires Valid()
      modifies this`tags, this`notifyCount, this`writeCount
      ensures Synced()
      ensures writeCount == old(writeCount) + 1
      ensures notifyCount == old(notifyCount) + 1
    {
      UpdateTagsArray();
      writeCount := writeCount + 1;
    }

    /** The closing pair of most mutators: WriteToFile, then UpdateTagsArray. */
    method WriteAndRefresh()
      requires Valid()
      modifies this`tags, this`notifyCount, this`writeCount
      ensures Synced() && DicView() == old(DicView())
      ensures writeCount == old(writeCount) + 1
      ensures notifyCount == old(notifyCount) + 2
    {
      WriteToFile();
      UpdateTagsArray();
    }

    /** GenerateNewID: the smallest positive integer not yet in the id list, which is appended. */
    method GenerateNewID() returns (id: int)
      modifies this`ids
      ensures id == FirstUnused(old(ids))
      ensures ids == old(ids) + [id]
      ensures old(IdsCoverKeys()) ==> IdsCoverKeys()
    {
      var i := 1;
      while i in ids
        invariant ids == old(ids)
        invariant 1 <= i
        invariant forall j :: 1 <= j < i ==> j in ids
        invariant FirstUnusedFrom(ids, i) == FirstUnused(ids)
        decreases |ids| + 1 - i
      {
        Pigeonhole(ids, i);
        i := i + 1;
      }
      id := i;
      ids := ids + [i];
    }

    /** ParseStringTag: splits the path and scans the snapshot for each token in
        turn, giving up at the first token that does not resolve. */
    method ParseStringTag(path: string) returns (r: Result<seq<int>>, tokens: seq<string>)
      ensures tokens == Split(path)
      ensures r == ParsePrefix(tokens, ValuesOf(tags), DicView(), |tokens|)
    {
      tokens := Split(path);
      ghost var vs := ValuesOf(tags);
      ghost var dic := DicView();
      var parsed := seq(|tokens|, _ => -1);
      var i := 0;
      while i < |tokens|
        invariant 0 <= i <= |tokens| == |parsed|
        invariant ParsePrefix(tokens, vs, dic, i) == Success(parsed[..i])
        invariant forall j :: i <= j < |tokens| ==> parsed[j] == -1
      {
        if i > 0 && parsed[i - 1] == -1 {
          break;
        }
        var found: Result<int> := Success(-1);
        var k := 0;
        while k < |tags|
          invariant 0 <= k <= |tags|
          invariant ScanFrom(tokens, i, vs, dic, k) == ScanToken(tokens, i, vs, dic)
        {
          var t := tags[k];
          assert vs[k] == t.Value();
          if t.tag == tokens[i] && t.depth == i {
            if i > 0 && t.parentId !in tagsById {
              found := Failure(KeyNotFound);
              break;
            }
            if i == 0 || tagsById[t.parentId].tag == tokens[i - 1] {
              found := Success(t.id);
              break;
            }
          }
          k := k + 1;
        }
        ParseStep(tokens, vs, dic, i, parsed, found);
        if found.Failure? {
          return Failure(found.error), tokens;
        }
        parsed := parsed[i := found.value];
        i := i + 1;
      }
      ParseComplete(tokens, vs, dic, i, parsed);
      r := Success(parsed);
    }

    /** AddTag(tag, writeToFile): stores the object under its id unless the id is
        already a key, optionally writes the file, then refreshes the snapshot. */
    method AddTag(t: GameplayTag, writeToFile: bool := true)
      requires Valid()
      modifies this`tagsById, this`tags, this`notifyCount, this`writeCount
      ensures tagsById == if t.id in old(tagsById) then old(tagsById) else old(tagsById)[t.id := t]
      ensures DicView() == if t.id in old(DicView()) then old(DicView()) else old(DicView())[t.id := t.Value()]
      ensures old(IdsCoverKeys()) ==> (IdsCoverKeys() <==> t.id in ids)
      ensures Valid() && Synced()
      ensures writeCount == old(writeCount) + (if writeToFile then 1 else 0)
      ensures notifyCount == old(notifyCount) + (if writeToFile then 2 else 1)
    {
      ghost var key := t.id;
      assert IdsCoverKeys() ==> (key in tagsById ==> key in ids);
      if t.id !in tagsById {
        tagsById := tagsById[t.id := t];
      }
      assert DicView() == if t.id in old(DicView()) then old(DicView()) else old(DicView())[t.id := t.Value()];
      if writeToFile {
        WriteToFile();
      }
      UpdateTagsArray();
    }

    /** RemoveTag(int): deletes the key when present (nothing else, descendants
        included), then writes the file and refreshes the snapshot either way. */
    method RemoveTagByID(id: int)
      requires Valid()
      modifies this`tagsById, this`tags, this`notifyCount, this`writeCount
      ensures tagsById == old(tagsById) - {id}
      ensures DicView() == old(DicView()) - {id}
      ensures old(IdsCoverKeys()) ==> IdsCoverKeys()
      ensures Valid() && Synced()
      ensures writeCount == old(writeCount) + 1
      ensures notifyCount == old(notifyCount) + 2
    {
      DropKey(id);
      WriteAndRefresh();
    }

    /** The guarded `tagsDic.Remove` of the removers: the key goes when present. */
    method DropKey(id: int)
      requires Valid()
      modifies this`tagsById
      ensures tagsById == old(tagsById) - {id}
      ensures DicView() == old(DicView()) - {id}
      ensures Valid() && (old(IdsCoverKeys()) ==> IdsCoverKeys())
    {
      if id in tagsById {
        tagsById := tagsById - {id};
      } else {
        assert tagsById == old(tagsById) - {id};
      }
      forall k | k in tagsById
        ensures DicView()[k] == old(DicView())[k]
      {
        assert DicView()[k] == tagsById[k].Value();
      }
    }

    /** RemoveTag(tag): removes by the object's id, whichever object is stored there. */
    method RemoveTag(t: GameplayTag)
      requires Valid()
      modifies this`tagsById, this`tags, this`notifyCount, this`writeCount
      ensures tagsById == old(tagsById) - {t.id}
      ensures DicView() == old(DicView()) - {t.id}
      ensures old(IdsCoverKeys()) ==> IdsCoverKeys()
      ensures Valid() && Synced()
      ensures writeCount == old(writeCount) + 1
      ensures notifyCount == old(notifyCount) + 2
    {
      RemoveTagByID(t.id);
    }

    /** RemoveTag(path): removes the key that the path's last entry parses to (which
        is -1 when the path did not resolve all the way); a throwing parse changes nothing. */
    method RemoveTagFromString(path: string) returns (r: Result<()>)
      requires Valid()
      modifies this`tagsById, this`tags, this`notifyCount, this`writeCount
      ensures var parse := Parse(path, old(ValuesOf(tags)), old(DicView()));
        && (r.Success? <==> parse.Success?)
        && (r.Failure? ==> r.error == parse.error)
        && (r.Success? ==> tagsById == old(tagsById) - {parse.value[|parse.value| - 1]})
      ensures r.Failure? ==> unchanged(this)
      ensures old(IdsCoverKeys()) ==> IdsCoverKeys()
      ensures r.Success? ==> Valid() && Synced()
      ensures r.Success? ==> writeCount == old(writeCount) + 1 && notifyCount == old(notifyCount) + 2
    {
      var res, tokens := ParseStringTag(path);
      if res.Failure? {
        return Failure(res.error);
      }
      RemoveTagByID(res.value[|res.value| - 1]);
      r := Success(());
    }

    /** RenameTag: relabels the stored object when the id is a key; writes the file
        and refreshes the snapshot either way. */
    method RenameTag(id: int, newName: string)
      requires Valid()
      modifies tagsById.Values, this`tags, this`notifyCount, this`writeCount
      ensures tagsById == old(tagsById) && ids == old(ids)
      ensures id in tagsById ==> tagsById[id].Value() == old(tagsById[id].Value()).(tag := newName)
      ensures forall k :: k in tagsById && k != id ==> tagsById[k].Value() == old(tagsById[k].Value())
      ensures DicView() == if id in old(DicView()) then old(DicView())[id := old(DicView())[id].(tag := newName)] else old(DicView())
      ensures Valid() && Synced()
      ensures writeCount == old(writeCount) + 1
      ensures notifyCount == old(notifyCount) + 2
    {
      if id in tagsById {
        tagsById[id].tag := newName;
      }
      WriteAndRefresh();
    }

    /** SetTagInUse: sets the flag of the stored object and writes the file, only when the id is a key. */
    method SetTagInUse(id: int, inUse: bool)
      requires Valid()
      modifies tagsById.Values, this`tags, this`notifyCount, this`writeCount
      ensures tagsById == old(tagsById) && ids == old(ids)
      ensures id in tagsById ==> tagsById[id].Value() == old(tagsById[id].Value()).(inUse := inUse)
      ensures forall k :: k in tagsById && k != id ==> tagsById[k].Value() == old(tagsById[k].Value())
      ensures DicView() == if id in old(DicView()) then old(DicView())[id := old(DicView())[id].(inUse := inUse)] else old(DicView())
      ensures Valid()
      ensures id in tagsById ==> Synced()
      ensures writeCount == old(writeCount) + (if id in tagsById then 1 else 0)
      ensures notifyCount == old(notifyCount) + (if id in tagsById then 1 else 0)
      ensures id !in tagsById ==> tags == old(tags)
    {
      if id in tagsById {
        tagsById[id].inUse := inUse;
        WriteToFile();
      }
    }

    /** GetTagByID: the stored object, or null when the id is not a key. */
    function GetTagByID(id: int): (r: Option<GameplayTag>)
      reads this`tagsById, tagsById.Values
      ensures r.None? <==> id !in DicView()
      ensures r.Some? ==> id in tagsById && r.value == tagsById[id] && r.value.Value() == DicView()[id]
    {
      if id in tagsById then Some(tagsById[id]) else None
    }

    /** GetTagIDByString: some key whose object carries the name (the enumeration
        order is left open), or -1 when none does. */
    method GetTagIDByString(name: string) returns (r: int)
      ensures || (r in DicView() && DicView()[r].tag == name)
              || (r == -1 && forall k :: k in DicView() ==> DicView()[k].tag != name)
    {
      var rest := tagsById.Keys;
      while rest != {}
        invariant rest <= tagsById.Keys
        invariant forall k :: k in tagsById && k !in rest ==> tagsById[k].tag != name
        decreases |rest|
      {
        assert (forall k :: k !in rest) ==> rest == {};
        var key :| key in rest;
        if tagsById[key].tag == name {
          assert DicView()[key] == tagsById[key].Value();
          return key;
        }
        rest := rest - {key};
      }
      assert forall k :: k in DicView() ==> DicView()[k] == tagsById[k].Value();
      r := -1;
    }

    /** One created element of find-or-create: a tag with the next generated id,
        which is the plan's next allocated id, with the token's label, the depth
        and the parent's id. */
    method NewChainTag(tokens: seq<string>, i: nat, parentId: int, ghost pl: Plan, ghost pool: seq<int>)
        returns (t: GameplayTag)
      requires pl.tokens == tokens && |pl.chain| == |tokens| && pl.resolved <= i < |tokens|
      requires parentId == if i == 0 then 0 else pl.chain[i - 1]
      requires pl.chain[pl.resolved..] == Allocate(pool, |tokens| - pl.resolved)
      requires ids == pool + Allocate(pool, i - pl.resolved)
      modifies this`ids
      ensures fresh(t) && t.Value() == NewTag(pl, i, [])
      ensures ids == pool + Allocate(pool, i - pl.resolved + 1)
    {
      ghost var k := i - pl.resolved;
      AllocateAt(pool, |tokens| - pl.resolved, k);
      assert pl.chain[i] == pl.chain[pl.resolved..][k];
      var id := GenerateNewID();
      assert ids == pool + (Allocate(pool, k) + [id]);
      t := new GameplayTag(tokens[i], id, i, parentId);
    }

    /** Element j of the chain a plan describes: the stored object for a resolved
        entry, otherwise an object holding the plan's new tag. */
    ghost predicate IsChainElement(t: GameplayTag, pl: Plan, j: nat)
      requires j < |pl.chain| == |pl.tokens|
      reads this`tagsById, t
    {
      if j < pl.resolved then pl.chain[j] in tagsById && t == tagsById[pl.chain[j]]
      else t.Value() == NewTag(pl, j, [])
    }

    /** The state of find-or-create's loop before entry i: the entries of the id
        list below i hold the chain's ids and the others the parse's; the id list
        has grown by the ids allocated so far; result element j is chain element j,
        and each created one is in `made`. */
    ghost predicate ChainSoFar(chainIds: seq<int>, result: seq<GameplayTag>, made: set<GameplayTag>,
                               parsed: seq<int>, pl: Plan, pool: seq<int>, i: nat)
      reads this`ids, this`tagsById, set t | t in result
    {
      && |chainIds| == |parsed| == |pl.chain| == |pl.tokens| && pl.resolved <= |pl.tokens| && i <= |chainIds|
      && (forall j :: 0 <= j < i ==> chainIds[j] == pl.chain[j])
      && (forall j :: i <= j < |chainIds| ==> chainIds[j] == parsed[j])
      && (i > 0 ==> chainIds[i - 1] == pl.chain[i - 1])
      && ids == pool + Allocate(pool, if i <= pl.resolved then 0 else i - pl.resolved)
      && |result| == i
      && (forall j :: 0 <= j < i ==> IsChainElement(result[j], pl, j) && (pl.resolved <= j ==> result[j] in made))
    }

    /** The body of find-or-create's loop for entry i: the stored object for a
        resolved id (a missing key throws), otherwise a new tag whose id is
        written into entry i of the id list; the element is appended to the result. */
    method ChainElement(tokens: seq<string>, i: nat, chainIds: seq<int>, result: seq<GameplayTag>,
                        ghost made: set<GameplayTag>, ghost parsed: seq<int>, ghost pl: Plan, ghost pool: seq<int>)
        returns (r: Result<GameplayTag>, updated: seq<int>, extended: seq<GameplayTag>, ghost made': set<GameplayTag>)
      requires pl.tokens == tokens && i < |tokens|
      requires ChainSoFar(chainIds, result, made, parsed, pl, pool, i)
      requires forall j :: 0 <= j < pl.resolved ==> parsed[j] != -1 && pl.chain[j] == parsed[j]
      requires forall j :: pl.resolved <= j < |tokens| ==> parsed[j] == -1
      requires pl.chain[pl.resolved..] == Allocate(pool, |tokens| - pl.resolved)
      modifies this`ids
      ensures r.Failure? ==> r.error == KeyNotFound && i < pl.resolved && parsed[i] !in tagsById && ids == pool
      ensures pl.resolved <= i ==> r.Success? && fresh(r.value) && made' == made + {r.value}
      ensures i < pl.resolved ==> made' == made
      ensures r.Success? ==> IsChainElement(r.value, pl, i) && updated == chainIds[i := pl.chain[i]] && extended == result + [r.value]
      ensures r.Success? ==> ChainSoFar(updated, extended, made', parsed, pl, pool, i + 1)
    {
      updated, extended := chainIds, result;
      made' := made;
      var id := chainIds[i];
      if id != -1 {
        if id !in tagsById {
          assert pool + Allocate(pool, 0) == pool;
          return Failure(KeyNotFound), updated, extended, made';
        }
        r := Success(tagsById[id]);
        assert chainIds[i := pl.chain[i]] == chainIds;
      } else {
        var t := NewChainTag(tokens, i, if i > 0 then chainIds[i - 1] else 0, pl, pool);
        updated := chainIds[i := t.id];
        made' := made + {t};
        r := Success(t);
      }
      extended := result + [r.value];
    }

    /** The loop of GetOrCreateGameplayTagsFromString over a parse whose first
        `resolved` entries are ids and whose others are -1: a resolved entry yields
        the stored object (a missing key throws), an unresolved one a new tag,
        whose id is the next one the plan allocates. */
    method ChainFromParse(tokens: seq<string>, parsed: seq<int>, ghost pl: Plan)
        returns (r: Result<seq<GameplayTag>>, ghost missing: nat)
      requires pl.tokens == tokens && |parsed| == |tokens| == |pl.chain| && pl.resolved <= |tokens|
      requires forall j :: 0 <= j < pl.resolved ==> parsed[j] != -1 && pl.chain[j] == parsed[j]
      requires forall j :: pl.resolved <= j < |tokens| ==> parsed[j] == -1
      requires pl.chain[pl.resolved..] == Allocate(ids, |tokens| - pl.resolved)
      modifies this`ids
      ensures r.Failure? ==> missing < pl.resolved && parsed[missing] !in tagsById
      ensures r.Failure? ==> r.error == KeyNotFound && ids == old(ids)
      ensures r.Success? ==>
        && |r.value| == |tokens|
        && ids == old(ids) + Allocate(old(ids), |tokens| - pl.resolved)
        && (forall j :: 0 <= j < pl.resolved ==> pl.chain[j] in tagsById && r.value[j] == tagsById[pl.chain[j]])
        && (forall j :: pl.resolved <= j < |tokens| ==> fresh(r.value[j]) && r.value[j].Value() == NewTag(pl, j, []))
    {
      ghost var pool := ids;
      ghost var n := |tokens|;
      ghost var p := pl.resolved;
      var chainIds := parsed;
      var result: seq<GameplayTag> := [];
      ghost var made: set<GameplayTag> := {};
      var i := 0;
      assert pool + Allocate(pool, 0) == pool;
      while i < |tokens|
        invariant 0 <= i <= n == |tokens|
        invariant ChainSoFar(chainIds, result, made, parsed, pl, pool, i)
        invariant fresh(made)
      {
        var e, next, ext, m := ChainElement(tokens, i, chainIds, result, made, parsed, pl, pool);
        if e.Failure? {
          return Failure(e.error), i;
        }
        chainIds, result := next, ext;
        made := m;
        i := i + 1;
      }
      forall j | 0 <= j < n
        ensures j < p ==> pl.chain[j] in tagsById && result[j] == tagsById[pl.chain[j]]
        ensures p <= j ==> fresh(result[j]) && result[j].Value() == NewTag(pl, j, [])
      {
        assert IsChainElement(result[j], pl, j);
      }
      r, missing := Success(result), 0;
    }

    /** GetOrCreateGameplayTagsFromString: parses the path, then walks its tokens,
        taking the stored object for a resolved entry and creating a tag with the
        next generated id otherwise, whose parent is the previous entry (0 for a root).
        Nothing is stored in the dictionary; only the id list grows. */
    method GetOrCreateGameplayTagsFromString(path: string) returns (r: Result<seq<GameplayTag>>, ghost plan: Plan)
      modifies this`ids
      ensures r.Failure? ==> PlanChain(old(DicView()), old(ValuesOf(tags)), old(ids), path) == Failure(r.error) && ids == old(ids)
      ensures r.Success? ==> PlanChain(old(DicView()), old(ValuesOf(tags)), old(ids), path) == Success(plan)
      ensures r.Success? ==>
        && |r.value| == |plan.chain|
        && ids == old(ids) + plan.chain[plan.resolved..]
        && (forall i :: 0 <= i < plan.resolved ==> plan.chain[i] in tagsById && r.value[i] == tagsById[plan.chain[i]])
        && (forall i :: plan.resolved <= i < |plan.chain| ==> fresh(r.value[i]) && r.value[i].Value() == NewTag(plan, i, []))
    {
      ghost var dic := DicView();
      ghost var vs := ValuesOf(tags);
      ghost var pool := ids;
      var parse, tokens := ParseStringTag(path);
      plan := Plan([], [], 0, []);
      if parse.Failure? {
        return Failure(parse.error), plan;
      }
      ghost var p := ResolvedCount(parse.value);
      PlanOfParse(dic, vs, pool, path, parse.value);
      plan := Plan(tokens, parse.value, p, ChainIds(parse.value, p, pool, |tokens|));
      ghost var missing;
      r, missing := ChainFromParse(tokens, parse.value, plan);
      assert Allocate(pool, |tokens| - p) == plan.chain[p..];
      if r.Failure? {
        assert parse.value[missing] !in dic;
      } else {
        assert forall j :: 0 <= j < p ==> parse.value[j] in dic;
      }
    }

    /** Writes one object's comment; the dictionary changes only when the object
        is the one stored under its id. */
    method SetComment(leaf: GameplayTag, comment: string)
      requires Valid()
      modifies leaf
      ensures leaf.Value() == old(leaf.Value()).(comment := comment)
      ensures Valid()
      ensures DicView() == if leaf.id in tagsById && tagsById[leaf.id] == leaf
                           then old(DicView())[leaf.id := old(DicView())[leaf.id].(comment := comment)]
                           else old(DicView())
    {
      leaf.comment := comment;
      forall k | k in tagsById && k != leaf.id
        ensures tagsById[k] != leaf
      {
        assert tagsById[k].id == k;
      }
    }

    /** The comment write on the chain's leaf: a stored leaf changes in the
        dictionary, a created one only in its own fields. */
    method CommentLeaf(list: seq<GameplayTag>, comment: string, ghost pl: Plan)
      requires Valid() && WellFormedPlan(pl, DicView()) && |list| == |pl.chain|
      requires forall j :: 0 <= j < pl.resolved ==> list[j] == tagsById[pl.chain[j]]
      requires pl.resolved < |list| ==> list[|list| - 1] !in tagsById.Values
      requires forall j :: pl.resolved <= j < |list| ==> list[j].Value() == NewTag(pl, j, [])
      requires forall j :: pl.resolved <= j < |list| - 1 ==> pl.chain[j] != pl.chain[|list| - 1]
      modifies list[|list| - 1]
      ensures Valid() && DicView() == MarkLeaf(old(DicView()), pl, comment)
      ensures forall j :: pl.resolved <= j < |list| ==> list[j].Value() == NewTag(pl, j, comment)
      ensures forall j :: 0 <= j < |list| ==> list[j].id == pl.chain[j]
    {
      ghost var n := |list|;
      ghost var p := pl.resolved;
      var leaf := list[|list| - 1];
      forall j | 0 <= j < n
        ensures list[j].id == pl.chain[j]
      {
        if j < p {
          assert tagsById[pl.chain[j]].id == pl.chain[j];
        } else {
          assert list[j].Value() == NewTag(pl, j, []);
        }
      }
      forall j | p <= j < n - 1
        ensures list[j] != leaf
      {
        assert list[j].id == pl.chain[j];
      }
      assert leaf.id in tagsById ==> tagsById[leaf.id] in tagsById.Values;
      assert leaf.id in tagsById && tagsById[leaf.id] == leaf <==> p == n;
      SetComment(leaf, comment);
    }

    /** The loop of AddTag(path, comment): AddTag(tag, false) on each chain element
        in order, so only ids that are not yet keys are inserted. */
    method StoreChain(list: seq<GameplayTag>, ghost pl: Plan, ghost comment: string)
      requires Valid() && |list| == |pl.chain| == |pl.tokens| && pl.resolved <= |list|
      requires forall j :: 0 <= j < |list| ==> list[j].id == pl.chain[j]
      requires forall j :: 0 <= j < pl.resolved ==> pl.chain[j] in tagsById
      requires forall j :: pl.resolved <= j < |list| ==> list[j].Value() == NewTag(pl, j, comment)
      modifies this`tagsById, this`tags, this`notifyCount, this`writeCount
      ensures Valid() && DicView() == InsertNew(old(DicView()), pl, pl.resolved, comment)
      ensures forall k :: k in old(tagsById) ==> k in tagsById && tagsById[k] == old(tagsById[k])
      ensures notifyCount == old(notifyCount) + |list| && writeCount == old(writeCount)
    {
      ghost var m0 := tagsById;
      ghost var target := StoreAbsent(m0, list, pl.chain, 0);
      var i := 0;
      while i < |list|
        invariant 0 <= i <= |list|
        invariant Valid()
        invariant StoreAbsent(tagsById, list, pl.chain, i) == target
        invariant notifyCount == old(notifyCount) + i && writeCount == old(writeCount)
      {
        assert list[i].id == pl.chain[i];
        AddTag(list[i], false);
        i := i + 1;
      }
      assert tagsById == target;
      StoreChainView(m0, list, pl, comment);
      StoreAbsentKeeps(m0, list, pl.chain, 0);
    }

    /** What AddTag(path, comment) does with a found-or-created chain: the leaf
        comment, AddTag(tag, false) on every element, the file write and the
        final refresh. */
    method ApplyChain(list: seq<GameplayTag>, comment: string, ghost pl: Plan, ghost target: map<int, TagValue>)
      requires Valid() && WellFormedPlan(pl, DicView()) && |list| == |pl.chain|
      requires target == InsertNew(MarkLeaf(DicView(), pl, comment), pl, pl.resolved, comment)
      requires forall j :: 0 <= j < pl.resolved ==> pl.chain[j] in tagsById && list[j] == tagsById[pl.chain[j]]
      requires pl.resolved < |list| ==> list[|list| - 1] !in tagsById.Values
      requires forall j :: pl.resolved <= j < |list| ==> list[j].Value() == NewTag(pl, j, [])
      requires forall j :: pl.resolved <= j < |list| - 1 ==> pl.chain[j] != pl.chain[|list| - 1]
      modifies this`tagsById, this`tags, this`notifyCount, this`writeCount, list[|list| - 1]
      ensures DicView() == target && ids == old(ids)
      ensures forall k :: k in old(tagsById) ==> k in tagsById && tagsById[k] == old(tagsById[k])
      ensures Valid() && Synced()
      ensures writeCount == old(writeCount) + 1
      ensures notifyCount == old(notifyCount) + |list| + 2
    {
      CommentLeaf(list, comment, pl);
      StoreChain(list, pl, comment);
      WriteAndRefresh();
    }

    /** The chain handling of AddTag(path, comment) on the plan find-or-create
        made: it carries out exactly what adding the path prescribes. */
    method AddChain(list: seq<GameplayTag>, comment: string, ghost pl: Plan, ghost vs: seq<TagValue>, ghost pool: seq<int>, ghost path: string) returns (ghost added: Added)
      requires Valid() && PlanChain(DicView(), vs, pool, path) == Success(pl) && |list| == |pl.chain|
      requires ids == pool + pl.chain[pl.resolved..]
      requires forall j :: 0 <= j < pl.resolved ==> pl.chain[j] in tagsById && list[j] == tagsById[pl.chain[j]]
      requires pl.resolved < |list| ==> list[|list| - 1] !in tagsById.Values
      requires forall j :: pl.resolved <= j < |list| ==> list[j].Value() == NewTag(pl, j, [])
      modifies this`tagsById, this`tags, this`notifyCount, this`writeCount, list[|list| - 1]
      ensures AddPath(old(DicView()), vs, pool, path, comment) == Success(added)
      ensures DicView() == added.dic && ids == added.pool
      ensures forall k :: k in old(tagsById) ==> k in tagsById && tagsById[k] == old(tagsById[k])
      ensures Valid() && Synced()
      ensures writeCount == old(writeCount) + 1
      ensures notifyCount == old(notifyCount) + |list| + 2
    {
      AddPathOfPlan(DicView(), vs, pool, path, comment, pl);
      added := ApplyPlan(DicView(), pool, pl, comment);
      ApplyChain(list, comment, pl, added.dic);
    }

    /** AddTag(path, comment): finds or creates the path's chain, writes the comment
        on its leaf, stores every chain element whose id is not yet a key (without
        writing), then writes the file and refreshes the snapshot again. */
    method AddTagFromString(path: string, comment: string := "") returns (r: Result<()>, ghost added: Added)
      requires Valid()
      modifies this, tagsById.Values
      ensures r.Failure? ==> AddPath(old(DicView()), old(ValuesOf(tags)), old(ids), path, comment) == Failure(r.error)
      ensures r.Failure? ==> unchanged(this) && unchanged(tagsById.Values)
      ensures r.Success? ==> AddPath(old(DicView()), old(ValuesOf(tags)), old(ids), path, comment) == Success(added)
      ensures r.Success? ==> DicView() == added.dic && ids == added.pool
      ensures r.Success? ==> forall k :: k in old(tagsById) ==> k in tagsById && tagsById[k] == old(tagsById[k])
      ensures r.Success? ==> Valid() && Synced()
      ensures r.Success? && old(IdsCoverKeys()) ==> IdsCoverKeys()
      ensures r.Success? ==> writeCount == old(writeCount) + 1
      ensures r.Success? ==> notifyCount == old(notifyCount) + |added.plan.chain| + 2
    {
      ghost var covered := IdsCoverKeys();
      ghost var dic := DicView();
      ghost var vs := ValuesOf(tags);
      ghost var pool := ids;
      var res, plan := GetOrCreateGameplayTagsFromString(path);
      added := Added(map[], [], plan);
      if res.Failure? {
        return Failure(res.error), added;
      }
      var list := res.value;
      assert DicView() == dic;
      added := AddChain(list, comment, plan, vs, pool, path);
      r := Success(());
      if covered {
        AddPathCoversKeys(dic, vs, pool, path, comment);
      }
    }

    /** The first loop of GetTagStringHierarchy: fills `parents` with the ids met by
        as many parent hops from `first` as the buffer is long; a missing key throws. */
    method CollectParents(parents: array<int>, first: int) returns (r: Result<()>)
      modifies parents
      ensures var hops := Hops(DicView(), first, parents.Length);
        && (r.Success? <==> hops.Success?)
        && (r.Success? ==> parents[..] == hops.value)
        && (r.Failure? ==> r.error == hops.error)
    {
      ghost var dic := DicView();
      var cur := first;
      var i := 0;
      assert parents[..0] == [];
      PrependNothing(Hops(dic, cur, parents.Length));
      while i < parents.Length
        invariant 0 <= i <= parents.Length
        invariant Hops(dic, first, parents.Length) == Prepend(parents[..i], Hops(dic, cur, parents.Length - i))
      {
        ghost var n: nat := parents.Length - i;
        ghost var done := parents[..i];
        if cur !in tagsById {
          assert cur !in dic;
          return Failure(KeyNotFound);
        }
        assert dic[cur] == tagsById[cur].Value();
        var p := tagsById[cur].id;
        parents[i] := p;
        if p !in tagsById {
          assert p !in dic;
          return Failure(KeyNotFound);
        }
        assert dic[p] == tagsById[p].Value();
        ghost var tail := Hops(dic, dic[p].parentId, n - 1);
        assert Hops(dic, cur, n) == Prepend([p], tail);
        assert parents[..i + 1] == done + [p];
        PrependTwice(done, [p], tail);
        cur := tagsById[p].parentId;
        i := i + 1;
      }
      assert parents[..] == parents[..i];
      assert Hops(dic, cur, 0) == Success([]);
      assert parents[..] + [] == parents[..];
      r := Success(());
    }

    /** GetTagStringHierarchy: collects `depth` parent ids into a buffer, then joins
        their labels root first, ending with the tag's own label. */
    method GetTagStringHierarchy(tagId: int) returns (r: Result<string>)
      ensures r == Hierarchy(DicView(), tagId)
    {
      ghost var dic := DicView();
      if tagId !in tagsById {
        return Success([]);
      }
      var t := tagsById[tagId];
      assert dic[tagId] == t.Value();
      if t.depth == 0 {
        return Success(t.tag);
      }
      if t.depth < 0 {
        return Failure(Overflow);
      }
      var parents := new int[t.depth];
      var collected := CollectParents(parents, t.parentId);
      if collected.Failure? {
        return Failure(collected.error);
      }
      ghost var ps := parents[..];
      var s: string := [];
      var j := parents.Length;
      while j > 0
        invariant 0 <= j <= |ps|
        invariant s == DottedLabels(dic, ps[j..])
      {
        j := j - 1;
        assert dic[ps[j]] == tagsById[ps[j]].Value();
        assert ps[j..][1..] == ps[j + 1..];
        s := s + tagsById[parents[j]].tag + [Separator];
      }
      assert ps[0..] == ps;
      r := Success(s + t.tag);
    }
  }
}
