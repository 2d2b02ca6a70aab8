/** Python's insertion-ordered `dict` with string keys, as a sequence of
    entries: assigning to a present key overwrites it in place, assigning
    to a new key appends it. */
module OrderedDicts {

  import opened Results

  datatype Entry<V> = Entry(key: string, value: V)

  type Dict<V> = seq<Entry<V>>

  function Keys<V>(d: Dict<V>): seq<string> {
    if |d| == 0 then [] else [d[0].key] + Keys(d[1..])
  }

  /** `d.get(k)`: the value under `k`, or `None` on a miss. */
  function Get<V>(d: Dict<V>, k: string): Option<V> {
    if |d| == 0 then None
    else if d[0].key == k then Some(d[0].value)
    else Get(d[1..], k)
  }

  /** A miss is `None` exactly when the key is absent. */
  lemma GetMiss<V>(d: Dict<V>, k: string)
    ensures Get(d, k).None? <==> k !in Keys(d)
  {
    if |d| > 0 {
      GetMiss(d[1..], k);
    }
  }

  /** `d[k] = v`. */
  function Put<V>(d: Dict<V>, k: string, v: V): Dict<V> {
    if |d| == 0 then [Entry(k, v)]
    else if d[0].key == k then [Entry(k, v)] + d[1..]
    else [d[0]] + Put(d[1..], k, v)
  }

  /** Assignment stores `v` under `k`, leaves every other key as it was,
      keeps a present key in its place and appends a new one. */
  lemma {:induction false} PutSpec<V>(d: Dict<V>, k: string, v: V)
    ensures Get(Put(d, k, v), k) == Some(v)
    ensures forall k' :: k' != k ==> Get(Put(d, k, v), k') == Get(d, k')
    ensures Keys(Put(d, k, v)) == if k in Keys(d) then Keys(d) else Keys(d) + [k]
  {
    if |d| > 0 {
      var r := Put(d, k, v);
      if d[0].key == k {
        assert r[1..] == d[1..];
      } else {
        PutSpec(d[1..], k, v);
        assert r[1..] == Put(d[1..], k, v);
      }
    }
  }

  /** The distinct elements of `s` in the order they first occur. */
  function FirstOccurrences(s: seq<string>): seq<string> {
    if |s| == 0 then []
    else
      var init := FirstOccurrences(s[..|s| - 1]);
      if s[|s| - 1] in s[..|s| - 1] then init else init + [s[|s| - 1]]
  }

  lemma {:induction false} FirstOccurrencesMembers(s: seq<string>)
    ensures forall k :: k in FirstOccurrences(s) <==> k in s
  {
    if |s| > 0 {
      FirstOccurrencesMembers(s[..|s| - 1]);
      assert s == s[..|s| - 1] + [s[|s| - 1]];
    }
  }

  /** The loop `for k in keys: d[k] = load(k)` where every `load` may raise;
      the first failure, in key order, aborts it. */
  function PutAll<V>(d: Dict<V>, keys: seq<string>, load: string -> Result<V>): Result<Dict<V>>
  {
    if |keys| == 0 then Ok(d)
    else
      var before :- PutAll(d, keys[..|keys| - 1], load);
      var v :- load(keys[|keys| - 1]);
      Ok(Put(before, keys[|keys| - 1], v))
  }

  lemma {:induction false} PutAllOk<V>(d: Dict<V>, keys: seq<string>, load: string -> Result<V>)
    ensures PutAll(d, keys, load).Ok? <==> forall i :: 0 <= i < |keys| ==> load(keys[i]).Ok?
  {
    if |keys| > 0 {
      var init := keys[..|keys| - 1];
      var last := keys[|keys| - 1];
      PutAllOk(d, init, load);
      if PutAll(d, init, load).Err? {
        assert PutAll(d, keys, load).Err?;
        var i :| 0 <= i < |init| && load(init[i]).Err?;
        assert keys[i] == init[i];
      } else if load(last).Err? {
        assert PutAll(d, keys, load).Err?;
      } else {
        assert PutAll(d, keys, load).Ok?;
        forall i | 0 <= i < |keys|
          ensures load(keys[i]).Ok?
        {
          if i < |init| {
            assert keys[i] == init[i];
          }
        }
      }
    }
  }

  lemma {:induction false} PutAllFirstError<V>(d: Dict<V>, keys: seq<string>, load: string -> Result<V>)
    requires PutAll(d, keys, load).Err?
    ensures exists i :: (0 <= i < |keys| && load(keys[i]) == Err(PutAll(d, keys, load).error)
      && forall j :: 0 <= j < i ==> load(keys[j]).Ok?)
  {
    var init := keys[..|keys| - 1];
    var prev := PutAll(d, init, load);
    if prev.Ok? {
      PutAllOk(d, init, load);
      assert load(keys[|keys| - 1]) == Err(PutAll(d, keys, load).error);
    } else {
      PutAllFirstError(d, init, load);
      var i :| 0 <= i < |init| && load(init[i]) == Err(prev.error)
        && forall j :: 0 <= j < i ==> load(init[j]).Ok?;
      assert keys[i] == init[i];
    }
  }

  lemma {:induction false} PutAllContents<V>(keys: seq<string>, load: string -> Result<V>)
    requires PutAll([], keys, load).Ok?
    ensures var d := PutAll([], keys, load).value;
      && Keys(d) == FirstOccurrences(keys)
      && (forall k :: k in keys ==> load(k).Ok? && Get(d, k) == Some(load(k).value))
      && (forall k :: k !in keys ==> Get(d, k).None?)
  {
    if |keys| > 0 {
      var init := keys[..|keys| - 1];
      PutAllContents(init, load);
      PutSpec(PutAll([], init, load).value, keys[|keys| - 1], load(keys[|keys| - 1]).value);
      FirstOccurrencesMembers(init);
      assert keys == init + [keys[|keys| - 1]];
    }
  }

  /** Filling an empty dict: it succeeds iff every load does, otherwise it
      fails with the error of the first key whose load fails; its keys are
      the distinct keys in first-occurrence order, each holding what `load`
      gives for it, and every other key misses. */
  lemma PutAllFromEmpty<V>(keys: seq<string>, load: string -> Result<V>)
    ensures PutAll([], keys, load).Ok? <==> forall i :: 0 <= i < |keys| ==> load(keys[i]).Ok?
    ensures PutAll([], keys, load).Err? ==>
      exists i :: 0 <= i < |keys| && load(keys[i]) == Err(PutAll([], keys, load).error)
        && forall j :: 0 <= j < i ==> load(keys[j]).Ok?
    ensures PutAll([], keys, load).Ok? ==>
      var d := PutAll([], keys, load).value;
      && Keys(d) == FirstOccurrences(keys)
      && (forall k :: k in keys ==> load(k).Ok? && Get(d, k) == Some(load(k).value))
      && (forall k :: k !in keys ==> Get(d, k).None?)
  {
    PutAllOk([], keys, load);
    if PutAll([], keys, load).Err? {
      PutAllFirstError([], keys, load);
    } else {
      PutAllContents(keys, load);
    }
  }
}
