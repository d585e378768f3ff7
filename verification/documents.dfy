/** Documents and records as the ingestion code sees them: a langchain
    `Document` (text plus a provenance dict), and a record as `csv.DictReader`
    or `json.load` hands it over, an ordered dict of strings. */
module Documents {
  import opened Wrappers
  import opened Text

  /** A value in a provenance dict: a string, the integer row index, or `None`. */
  datatype MetaValue = Str(s: string) | Int(i: int) | Null

  type Metadata = map<string, MetaValue>

  datatype Document = Document(content: string, metadata: Metadata)

  /** One record: its (key, value) pairs in column order. */
  type Row = seq<(string, string)>

  /** What makes an adapter give up on a file: a missing key (`KeyError`),
      or a failure inside a third-party loader or reader. */
  datatype LoadError = KeyError(key: string) | LoaderError(message: string)

  /** `row.get(key)`: the value stored under `key`, if any. */
  function Get(row: Row, key: string): Option<string>
  {
    if |row| == 0 then None
    else if row[0].0 == key then Some(row[0].1)
    else Get(row[1..], key)
  }

  /** A key is absent exactly when no pair carries it; a present key's value
      is the value of a pair that carries it. */
  lemma {:induction false} GetSpec(row: Row, key: string)
    ensures Get(row, key).None? <==> forall i :: 0 <= i < |row| ==> row[i].0 != key
    ensures Get(row, key).Some? ==> exists i :: 0 <= i < |row| && row[i] == (key, Get(row, key).value)
  {
    if |row| > 0 && row[0].0 != key {
      GetSpec(row[1..], key);
      assert forall i :: 1 <= i < |row| ==> row[i] == row[1..][i - 1];
      if Get(row, key).Some? {
        var i :| 0 <= i < |row| - 1 && row[1..][i] == (key, Get(row, key).value);
        assert row[i + 1] == (key, Get(row, key).value);
      }
    }
  }

  /** With distinct keys, each key finds its own pair. */
  lemma GetDistinct(row: Row, j: nat)
    requires j < |row| && forall a, b :: 0 <= a < b < |row| ==> row[a].0 != row[b].0
    ensures Get(row, row[j].0) == Some(row[j].1)
  {
    GetSpec(row, row[j].0);
  }

  /** `row.get(key, default)`: the default when no pair carries the key,
      otherwise the value of a pair that carries it. */
  function GetOr(row: Row, key: string, default: string): (r: string)
    ensures (forall i :: 0 <= i < |row| ==> row[i].0 != key) ==> r == default
    ensures (exists i :: 0 <= i < |row| && row[i].0 == key) ==> exists i :: 0 <= i < |row| && row[i] == (key, r)
  {
    GetSpec(row, key);
    match Get(row, key)
    case Some(v) => v
    case None => default
  }

  /** `d[key] = value`: an existing key keeps its place and takes the new value;
      a new key is added at the end. */
  function Put(row: Row, key: string, value: string): (r: Row)
    ensures Get(r, key) == Some(value)
    ensures forall k :: k != key ==> Get(r, k) == Get(row, k)
    ensures Get(row, key).Some? ==> |r| == |row| && forall i :: 0 <= i < |row| ==> r[i].0 == row[i].0
    ensures Get(row, key).None? ==> r == row + [(key, value)]
  {
    if |row| == 0 then [(key, value)]
    else if row[0].0 == key then [(key, value)] + row[1..]
    else [row[0]] + Put(row[1..], key, value)
  }

  /** `{k.strip(): v for k, v in row.items()}`. */
  function StripKeys(row: Row): Row
  {
    if |row| == 0 then [] else Put(StripKeys(row[..|row| - 1]), Strip(row[|row| - 1].0), row[|row| - 1].1)
  }

  /** After stripping, a key is present exactly when some column strips to it. */
  lemma {:induction false} StripKeysHas(row: Row, key: string)
    ensures Get(StripKeys(row), key).Some? <==> exists i :: 0 <= i < |row| && Strip(row[i].0) == key
  {
    if |row| > 0 {
      var n := |row| - 1;
      var prefix := row[..n];
      StripKeysHas(prefix, key);
      assert forall i :: 0 <= i < n ==> prefix[i] == row[i];
    }
  }

  /** A present key holds the value of the LAST column that strips to it. */
  lemma {:induction false} StripKeysLast(row: Row, key: string) returns (i: nat)
    requires Get(StripKeys(row), key).Some?
    ensures i < |row| && Strip(row[i].0) == key && row[i].1 == Get(StripKeys(row), key).value
    ensures forall j :: i < j < |row| ==> Strip(row[j].0) != key
  {
    var n := |row| - 1;
    var prefix := row[..n];
    if Strip(row[n].0) == key {
      i := n;
    } else {
      i := StripKeysLast(prefix, key);
      assert forall j :: 0 <= j < n ==> prefix[j] == row[j];
    }
  }

  /** Storing a key no pair carries appends the pair at the end. */
  lemma PutNew(d: Row, key: string, value: string)
    requires forall i :: 0 <= i < |d| ==> d[i].0 != key
    ensures Put(d, key, value) == d + [(key, value)]
  {
    GetSpec(d, key);
  }

  /** When no two columns strip to the same key, stripping keeps every column, in order. */
  lemma {:induction false} StripKeysDistinct(row: Row)
    requires forall i, j :: 0 <= i < j < |row| ==> Strip(row[i].0) != Strip(row[j].0)
    ensures StripKeys(row) == seq(|row|, i requires 0 <= i < |row| => (Strip(row[i].0), row[i].1))
  {
    if |row| > 0 {
      var n := |row| - 1;
      var prefix := row[..n];
      var k := Strip(row[n].0);
      StripKeysDistinct(prefix);
      var d := StripKeys(prefix);
      forall i | 0 <= i < |d|
        ensures d[i].0 != k
      {
        assert d[i].0 == Strip(row[i].0);
      }
      PutNew(d, k, row[n].1);
      var target := seq(|row|, i requires 0 <= i < |row| => (Strip(row[i].0), row[i].1));
      forall i | 0 <= i < |row|
        ensures target[i] == (d + [(k, row[n].1)])[i]
      {
        if i < n {
          assert prefix[i] == row[i];
        }
      }
    }
  }

  /** `keys[i]` is the first of `keys` that `row` lacks. */
  predicate FirstMissing(row: Row, keys: seq<string>, i: int)
  {
    && 0 <= i < |keys|
    && Get(row, keys[i]).None?
    && forall j :: 0 <= j < i ==> Get(row, keys[j]).Some?
  }

  /** `row[k]` for each key in turn: their values, or `KeyError` for the first
      key that is missing. */
  function Require(row: Row, keys: seq<string>): (r: Result<seq<string>, LoadError>)
    ensures r.Ok? <==> forall i :: 0 <= i < |keys| ==> Get(row, keys[i]).Some?
    ensures r.Ok? ==> |r.value| == |keys| && forall i :: 0 <= i < |keys| ==> Get(row, keys[i]) == Some(r.value[i])
    ensures r.Err? ==> exists i :: FirstMissing(row, keys, i) && r.error == KeyError(keys[i])
  {
    if |keys| == 0 then Ok([])
    else match Get(row, keys[0])
      case None => Err(KeyError(keys[0]))
      case Some(v) =>
        match Require(row, keys[1..])
        case Err(e) => Err(e)
        case Ok(vs) => Ok([v] + vs)
  }
}
