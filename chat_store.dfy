/**
 * The key-value chat store (a Redis-compatible service). One keyspace holds
 * chat records as hashes under `chat:<id>` and, per team, a sorted set
 * `team:<T>:chats` whose members are chat keys scored by their save time.
 */
module ChatStore {
  import opened Wrappers
  import opened Text
  import opened Records

  datatype KvValue = Hash(chat: Chat) | SortedSet(scores: map<string, int>)

  type Kv = map<string, KvValue>

  // ---------------------------------------------------------------------------
  // Keys
  // ---------------------------------------------------------------------------

  function ChatKey(id: string): string { "chat:" + id }

  predicate IsChatKey(k: string) { |k| >= 5 && k[..5] == "chat:" }

  /** What a template literal interpolates for `user?.currentTeamId`. */
  datatype Interpolated = Undefined | Null | Num(n: int)

  function Render(v: Interpolated): string {
    match v
    case Undefined => "undefined"
    case Null => "null"
    case Num(n) => IntToString(n)
  }

  /** The key `team:${v}:chats`. */
  function IndexKey(v: Interpolated): string { "team:" + Render(v) + ":chats" }

  /** The index key of a team with a numeric id. */
  function TeamChatsKey(t: int): string { IndexKey(Num(t)) }

  lemma ChatKeyIsChatKey(id: string)
    ensures IsChatKey(ChatKey(id))
  {
    assert ChatKey(id)[..5] == "chat:";
  }

  /** A chat key never names a team index, whatever is interpolated. */
  lemma ChatKeyIsNoIndexKey(k: string, v: Interpolated)
    requires IsChatKey(k)
    ensures k != IndexKey(v)
  {
    assert k[0] == 'c';
    assert IndexKey(v)[0] == 't';
  }

  /** Distinct teams have distinct index keys. */
  lemma TeamChatsKeyInjective(s: int, t: int)
    ensures TeamChatsKey(s) == TeamChatsKey(t) ==> s == t
  {
    if TeamChatsKey(s) == TeamChatsKey(t) {
      var a, b := IntToString(s), IntToString(t);
      assert |a| == |b|;
      assert TeamChatsKey(s)[5..5 + |a|] == a;
      assert TeamChatsKey(t)[5..5 + |b|] == b;
      IntToStringInjective(s, t);
    }
  }

  /** With no team id (undefined or null) the index key is no team's key. */
  lemma NullishIndexKeyIsNoTeamKey(v: Interpolated, t: int)
    requires !v.Num?
    ensures IndexKey(v) != TeamChatsKey(t)
  {
    assert IndexKey(v)[5] == Render(v)[0];
    assert TeamChatsKey(t)[5] == IntToString(t)[0];
  }

  // ---------------------------------------------------------------------------
  // The shape every reachable keyspace has
  // ---------------------------------------------------------------------------

  ghost predicate IsTeamIndexKey(k: string) { exists t :: k == TeamChatsKey(t) }

  /**
   * Hashes sit under the key of the chat they hold; sorted sets sit under a
   * team's index key, are never empty (Redis deletes an emptied set) and
   * list only chat keys.
   */
  ghost predicate WellFormed(kv: Kv) {
    forall k :: k in kv ==>
      match kv[k]
      case Hash(c) => k == ChatKey(c.id)
      case SortedSet(z) => IsTeamIndexKey(k) && z != map[] && forall m :: m in z ==> IsChatKey(m)
  }

  // ---------------------------------------------------------------------------
  // Commands
  // ---------------------------------------------------------------------------

  /** EXISTS: whether any value is stored under `k`. */
  predicate Exists(kv: Kv, k: string) { k in kv }

  /** HGETALL: the chat stored under `k`, or null. */
  function HGetAll(kv: Kv, k: string): Option<Chat> {
    if k in kv && kv[k].Hash? then Some(kv[k].chat) else None
  }

  /** The members and scores of the sorted set under `k` (empty when absent). */
  function Scores(kv: Kv, k: string): map<string, int> {
    if k in kv && kv[k].SortedSet? then kv[k].scores else map[]
  }

  /** ZSCORE: the score of `m` in the sorted set under `k`, or null. */
  function ZScore(kv: Kv, k: string, m: string): Option<int> {
    var z := Scores(kv, k);
    if m in z then Some(z[m]) else None
  }

  /** DEL: removes whatever is stored under `k`. */
  function Del(kv: Kv, k: string): (r: Kv)
    ensures k !in r
    ensures forall o :: o != k ==> (o in r <==> o in kv) && (o in r ==> r[o] == kv[o])
  {
    kv - {k}
  }

  /** HMSET of a whole chat record under `k`. */
  function HmSet(kv: Kv, k: string, c: Chat): (r: Kv)
    ensures HGetAll(r, k) == Some(c)
    ensures forall o :: o != k ==> (o in r <==> o in kv) && (o in r ==> r[o] == kv[o])
  {
    kv[k := Hash(c)]
  }

  /** ZADD: sets the score of `m` in the sorted set under `k`, creating the set. */
  function ZAdd(kv: Kv, k: string, m: string, score: int): (r: Kv)
    ensures Scores(r, k) == Scores(kv, k)[m := score]
    ensures forall o :: o != k ==> (o in r <==> o in kv) && (o in r ==> r[o] == kv[o])
  {
    kv[k := SortedSet(Scores(kv, k)[m := score])]
  }

  /** ZREM: removes `m` from the sorted set under `k`; an emptied set is deleted. */
  function ZRem(kv: Kv, k: string, m: string): (r: Kv)
    ensures Scores(r, k) == Scores(kv, k) - {m}
    ensures k in r <==> k in kv && (kv[k].SortedSet? ==> Scores(kv, k) - {m} != map[])
    ensures forall o :: o != k ==> (o in r <==> o in kv) && (o in r ==> r[o] == kv[o])
  {
    if k in kv && kv[k].SortedSet? then
      var z := kv[k].scores - {m};
      if z == map[] then kv - {k} else kv[k := SortedSet(z)]
    else kv
  }

  /**
   * Reading back after each command: HGETALL of a deleted key is null and of
   * an HMSET key is the record written; ZSCORE of a removed member is null
   * and of an added one is its new score; every other key reads as before.
   */
  lemma CommandLaws(kv: Kv, k: string, o: string, m: string, c: Chat, score: int)
    requires o != k
    ensures HGetAll(Del(kv, k), k) == None && HGetAll(Del(kv, k), o) == HGetAll(kv, o)
    ensures HGetAll(HmSet(kv, k, c), k) == Some(c) && HGetAll(HmSet(kv, k, c), o) == HGetAll(kv, o)
    ensures ZScore(ZRem(kv, k, m), k, m) == None && ZScore(ZRem(kv, k, m), o, m) == ZScore(kv, o, m)
    ensures ZScore(ZAdd(kv, k, m, score), k, m) == Some(score) && ZScore(ZAdd(kv, k, m, score), o, m) == ZScore(kv, o, m)
  {
  }

  // ---------------------------------------------------------------------------
  // ZRANGE 0 -1: members by ascending score, equal scores by member
  // ---------------------------------------------------------------------------

  predicate Before(z: map<string, int>, a: string, b: string)
    requires a in z && b in z
  {
    z[a] < z[b] || (z[a] == z[b] && StrLess(a, b))
  }

  predicate IsLeast(z: map<string, int>, m: string) {
    m in z && forall o :: o in z && o != m ==> Before(z, m, o)
  }

  lemma BeforeTotal(z: map<string, int>, a: string, b: string)
    requires a in z && b in z && a != b
    ensures Before(z, a, b) != Before(z, b, a)
  {
    StrLessTotal(a, b);
    StrLessAsymmetric(a, b);
  }

  lemma BeforeTransitive(z: map<string, int>, a: string, b: string, c: string)
    requires a in z && b in z && c in z
    requires Before(z, a, b) && Before(z, b, c)
    ensures Before(z, a, c)
  {
    StrLessTransitive(a, b, c);
  }

  lemma {:induction false} LeastExists(z: map<string, int>)
    requires z != map[]
    ensures exists m :: IsLeast(z, m)
    decreases |z|
  {
    var k :| k in z;
    var rest := z - {k};
    if rest == map[] {
      assert z.Keys == {k} by {
        assert rest.Keys == z.Keys - {k};
        assert rest.Keys == {};
      }
      assert IsLeast(z, k);
    } else {
      assert |rest| < |z| by { assert rest.Keys == z.Keys - {k}; }
      LeastExists(rest);
      var m :| IsLeast(rest, m);
      assert forall o :: o in rest && o != m ==> Before(z, m, o) by {
        forall o | o in rest && o != m ensures Before(z, m, o) {
          assert Before(rest, m, o);
          assert rest[m] == z[m] && rest[o] == z[o];
        }
      }
      BeforeTotal(z, k, m);
      if Before(z, k, m) {
        forall o | o in z && o != k ensures Before(z, k, o) {
          if o != m { assert o in rest; BeforeTransitive(z, k, m, o); }
        }
        assert IsLeast(z, k);
      } else {
        forall o | o in z && o != m ensures Before(z, m, o) {
          if o != k { assert o in rest; }
        }
        assert IsLeast(z, m);
      }
    }
  }

  lemma LeastUnique(z: map<string, int>)
    ensures forall a, b :: IsLeast(z, a) && IsLeast(z, b) ==> a == b
  {
    forall a, b | IsLeast(z, a) && IsLeast(z, b) ensures a == b {
      if a != b { BeforeTotal(z, a, b); }
    }
  }

  /** ZRANGE key 0 -1: every member once, in Redis's ascending order. */
  function ZRange(z: map<string, int>): (ms: seq<string>)
    ensures |ms| == |z|
    ensures forall m :: m in ms <==> m in z
    decreases |z|
  {
    if z == map[] then []
    else
      LeastExists(z);
      LeastUnique(z);
      var m :| IsLeast(z, m);
      var rest := z - {m};
      assert rest.Keys == z.Keys - {m};
      [m] + ZRange(rest)
  }

  /** ZRANGE key 0 -1 REV: every member once, highest score first. */
  function ZRangeRev(z: map<string, int>): (ms: seq<string>)
    ensures |ms| == |z|
    ensures forall m :: m in ms <==> m in z
    decreases |z|
  {
    if z == map[] then []
    else
      LeastExists(z);
      LeastUnique(z);
      var m :| IsLeast(z, m);
      var rest := z - {m};
      assert rest.Keys == z.Keys - {m};
      ZRangeRev(rest) + [m]
  }

  /** Every member of `ms` is listed in `z` strictly before the members after it. */
  predicate Ascending(z: map<string, int>, ms: seq<string>) {
    forall i, j :: 0 <= i < j < |ms| ==> ms[i] in z && ms[j] in z && Before(z, ms[i], ms[j])
  }

  /** The least member followed by an ascending listing of the others is ascending. */
  lemma AscendingCons(z: map<string, int>, m: string, tail: seq<string>)
    requires IsLeast(z, m)
    requires forall k :: 0 <= k < |tail| ==> tail[k] in z && tail[k] != m
    requires Ascending(z - {m}, tail)
    ensures Ascending(z, [m] + tail)
  {
    var ms := [m] + tail;
    forall i, j | 0 <= i < j < |ms| ensures ms[i] in z && ms[j] in z && Before(z, ms[i], ms[j]) {
      assert ms[j] == tail[j - 1];
      if i > 0 {
        assert ms[i] == tail[i - 1];
        assert Before(z - {m}, tail[i - 1], tail[j - 1]);
      }
    }
  }

  /** ZRANGE lists members strictly ascending: by score, equal scores by member. */
  lemma {:induction false} ZRangeAscending(z: map<string, int>)
    ensures Ascending(z, ZRange(z))
    decreases |z|
  {
    if z != map[] {
      LeastExists(z);
      LeastUnique(z);
      var m :| IsLeast(z, m);
      var rest := z - {m};
      assert rest.Keys == z.Keys - {m};
      assert ZRange(z) == [m] + ZRange(rest);
      ZRangeAscending(rest);
      AscendingCons(z, m, ZRange(rest));
    }
  }

  /** Every member of `ms` is listed in `z` strictly after the members after it. */
  predicate Descending(z: map<string, int>, ms: seq<string>) {
    forall i, j :: 0 <= i < j < |ms| ==> ms[i] in z && ms[j] in z && Before(z, ms[j], ms[i])
  }

  /** A descending listing of the others followed by the least member is descending. */
  lemma DescendingSnoc(z: map<string, int>, m: string, init: seq<string>)
    requires IsLeast(z, m)
    requires forall k :: 0 <= k < |init| ==> init[k] in z && init[k] != m
    requires Descending(z - {m}, init)
    ensures Descending(z, init + [m])
  {
    var ms := init + [m];
    forall i, j | 0 <= i < j < |ms| ensures ms[i] in z && ms[j] in z && Before(z, ms[j], ms[i]) {
      assert ms[i] == init[i];
      if j < |ms| - 1 {
        assert ms[j] == init[j];
        assert Before(z - {m}, init[j], init[i]);
      }
    }
  }

  /** ZRANGE ... REV lists members strictly descending. */
  lemma {:induction false} ZRangeRevDescending(z: map<string, int>)
    ensures Descending(z, ZRangeRev(z))
    decreases |z|
  {
    if z != map[] {
      LeastExists(z);
      LeastUnique(z);
      var m :| IsLeast(z, m);
      var rest := z - {m};
      assert rest.Keys == z.Keys - {m};
      assert ZRangeRev(z) == ZRangeRev(rest) + [m];
      ZRangeRevDescending(rest);
      DescendingSnoc(z, m, ZRangeRev(rest));
    }
  }

  // ---------------------------------------------------------------------------
  // The commands the actions issue keep the keyspace well formed
  // ---------------------------------------------------------------------------

  /** Two keyspaces agree on every key outside `ks`. */
  ghost predicate SameExcept(kv: Kv, kv': Kv, ks: set<string>) {
    forall k :: k !in ks ==> (k in kv <==> k in kv') && (k in kv ==> kv[k] == kv'[k])
  }

  lemma DelKeepsWellFormed(kv: Kv, k: string)
    requires WellFormed(kv)
    ensures WellFormed(Del(kv, k))
  {
  }

  lemma ZRemKeepsWellFormed(kv: Kv, k: string, m: string)
    requires WellFormed(kv)
    ensures WellFormed(ZRem(kv, k, m))
  {
    var r := ZRem(kv, k, m);
    if k in kv && kv[k].SortedSet? {
      var z := kv[k].scores - {m};
      forall o | o in r
        ensures match r[o]
          case Hash(c) => o == ChatKey(c.id)
          case SortedSet(z') => IsTeamIndexKey(o) && z' != map[] && forall x :: x in z' ==> IsChatKey(x)
      {
        if o == k { assert r[k] == SortedSet(z); }
      }
    }
  }

  /**
   * Storing chat `c` and indexing it for team `t` keeps the keyspace well
   * formed, makes the chat readable and listed at `score`, and touches no
   * other key.
   */
  lemma SaveEffect(kv: Kv, c: Chat, t: int, score: int)
    requires WellFormed(kv)
    ensures var ck, tk := ChatKey(c.id), TeamChatsKey(t);
      var r := ZAdd(HmSet(kv, ck, c), tk, ck, score);
      && WellFormed(r)
      && HGetAll(r, ck) == Some(c)
      && ZScore(r, tk, ck) == Some(score)
      && Scores(r, tk) == Scores(kv, tk)[ck := score]
      && SameExcept(kv, r, {ck, tk})
  {
    var ck, tk := ChatKey(c.id), TeamChatsKey(t);
    ChatKeyIsChatKey(c.id);
    ChatKeyIsNoIndexKey(ck, Num(t));
    var h := HmSet(kv, ck, c);
    var r := ZAdd(h, tk, ck, score);
    assert Scores(h, tk) == Scores(kv, tk);
    forall o | o in r
      ensures match r[o]
        case Hash(c') => o == ChatKey(c'.id)
        case SortedSet(z) => IsTeamIndexKey(o) && z != map[] && forall x :: x in z ==> IsChatKey(x)
    {
      if o == tk {
        assert r[o] == SortedSet(Scores(kv, tk)[ck := score]);
        assert ck in Scores(kv, tk)[ck := score];
        assert IsTeamIndexKey(o);
      } else if o == ck {
        assert r[o] == Hash(c);
      } else {
        assert r[o] == kv[o];
      }
    }
  }

  /**
   * Part way through deleting the chats of team index `tk`: the chats in
   * `gone` and their index entries are deleted, nothing else changed.
   */
  ghost predicate ClearedSoFar(kv0: Kv, kv: Kv, tk: string, gone: set<string>) {
    && WellFormed(kv)
    && (forall k :: k in gone ==> k !in kv)
    && Scores(kv, tk) == Scores(kv0, tk) - gone
    && SameExcept(kv0, kv, gone + {tk})
  }

  lemma ClearStart(kv: Kv, tk: string)
    requires WellFormed(kv)
    ensures ClearedSoFar(kv, kv, tk, {})
  {
    assert Scores(kv, tk) - {} == Scores(kv, tk);
  }

  /** The distinct keys of a listing. */
  function Elems(keys: seq<string>): set<string> { set k | k in keys }

  /** ZRANGE lists every member of the set. */
  lemma ElemsOfZRange(z: map<string, int>)
    ensures Elems(ZRange(z)) == z.Keys
  {
  }

  /** A team index lists chat keys only. */
  lemma ChatIndexListsChatKeys(kv: Kv, tk: string)
    requires WellFormed(kv)
    ensures forall k :: k in Scores(kv, tk) ==> IsChatKey(k)
  {
  }

  /** One more key of a listing adds that key to its distinct keys. */
  lemma ElemsOfPrefix(keys: seq<string>, i: int)
    requires 0 <= i < |keys|
    ensures Elems(keys[..i + 1]) == Elems(keys[..i]) + {keys[i]}
  {
    assert keys[..i + 1] == keys[..i] + [keys[i]];
  }

  /** The step of the pipeline for the `i`-th listed key. */
  lemma RemoveNext(kv0: Kv, kv: Kv, t: int, keys: seq<string>, i: int)
    requires 0 <= i < |keys| && IsChatKey(keys[i])
    requires ClearedSoFar(kv0, kv, TeamChatsKey(t), Elems(keys[..i]))
    ensures ClearedSoFar(kv0, ZRem(Del(kv, keys[i]), TeamChatsKey(t), keys[i]), TeamChatsKey(t), Elems(keys[..i + 1]))
  {
    var gone := Elems(keys[..i]);
    RemoveStep(kv0, kv, t, gone, keys[i]);
    ElemsOfPrefix(keys, i);
  }

  /** DEL of chat key `ck` followed by ZREM of it from team `t`'s index. */
  lemma RemoveStep(kv0: Kv, kv: Kv, t: int, gone: set<string>, ck: string)
    requires ClearedSoFar(kv0, kv, TeamChatsKey(t), gone)
    requires IsChatKey(ck)
    ensures ClearedSoFar(kv0, ZRem(Del(kv, ck), TeamChatsKey(t), ck), TeamChatsKey(t), gone + {ck})
  {
    var tk := TeamChatsKey(t);
    ChatKeyIsNoIndexKey(ck, Num(t));
    DelKeepsWellFormed(kv, ck);
    ZRemKeepsWellFormed(Del(kv, ck), tk, ck);
    var r := ZRem(Del(kv, ck), tk, ck);
    assert Scores(Del(kv, ck), tk) == Scores(kv, tk);
    assert Scores(r, tk) == Scores(kv0, tk) - (gone + {ck});
  }

  /**
   * `kv` is `kv0` with the team index `tk` and every chat it listed deleted,
   * and nothing else changed.
   */
  ghost predicate Cleared(kv0: Kv, kv: Kv, tk: string) {
    && tk !in kv
    && (forall k :: k in Scores(kv0, tk) ==> k !in kv)
    && SameExcept(kv0, kv, Scores(kv0, tk).Keys + {tk})
  }

  /**
   * Once exactly the chats it listed are deleted, the team index itself is
   * gone and every other key is as it was.
   */
  lemma ClearedIndexGone(kv0: Kv, kv: Kv, t: int, gone: set<string>)
    requires ClearedSoFar(kv0, kv, TeamChatsKey(t), gone)
    requires Scores(kv0, TeamChatsKey(t)).Keys == gone
    ensures Cleared(kv0, kv, TeamChatsKey(t))
  {
    var tk := TeamChatsKey(t);
    assert Scores(kv, tk) == map[];
    if tk in kv && kv[tk].Hash? {
      ChatKeyIsChatKey(kv[tk].chat.id);
      ChatKeyIsNoIndexKey(tk, Num(t));
    }
  }

  /** A nullish team id names no index in a well-formed keyspace. */
  lemma NullishIndexIsEmpty(kv: Kv, v: Interpolated)
    requires WellFormed(kv)
    requires !v.Num?
    ensures Scores(kv, IndexKey(v)) == map[]
  {
    var k := IndexKey(v);
    if k in kv && kv[k].SortedSet? {
      var t :| k == TeamChatsKey(t);
      NullishIndexKeyIsNoTeamKey(v, t);
    }
  }

  /** A hash found under `chat:<id>` is the chat with that id. */
  lemma ChatUnderItsKey(kv: Kv, id: string)
    requires WellFormed(kv)
    ensures HGetAll(kv, ChatKey(id)).Some? ==> HGetAll(kv, ChatKey(id)).value.id == id
  {
    if HGetAll(kv, ChatKey(id)).Some? {
      var c := kv[ChatKey(id)].chat;
      assert ChatKey(id) == ChatKey(c.id);
      assert ChatKey(id)[5..] == id && ChatKey(c.id)[5..] == c.id;
    }
  }
}
