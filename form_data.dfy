/**
 * `getFormData`: an object's entries serialised as `key=value` pairs joined by '&', the
 * values passed through `encodeURIComponent`, which is a parameter here.
 */
module FormData {
  import opened Strings

  /** One `key=encode(value)` pair: the key, then '=', then the encoded value. */
  function Pair(field: (string, string), encode: string -> string): (p: string)
    ensures |p| == |field.0| + 1 + |encode(field.1)|
    ensures p[..|field.0|] == field.0 && p[|field.0|] == '='
    ensures p[|field.0| + 1..] == encode(field.1)
  {
    field.0 + "=" + encode(field.1)
  }

  /** The pairs of all fields, in key order. */
  function Pairs(fields: seq<(string, string)>, encode: string -> string): (ps: seq<string>)
    ensures |ps| == |fields|
    ensures forall i :: 0 <= i < |fields| ==> ps[i] == Pair(fields[i], encode)
  {
    seq(|fields|, i requires 0 <= i < |fields| => Pair(fields[i], encode))
  }

  /** The form encoding of the fields: empty exactly when there are no fields. */
  function Encoded(fields: seq<(string, string)>, encode: string -> string): (r: string)
    ensures r == "" <==> fields == []
  {
    Join(Pairs(fields, encode), '&')
  }

  /** The pairs of one more field. */
  lemma PairsSnoc(fields: seq<(string, string)>, index: nat, encode: string -> string)
    requires index < |fields|
    ensures Pairs(fields[..index + 1], encode) == Pairs(fields[..index], encode) + [Pair(fields[index], encode)]
  {
  }

  /**
   * `getFormData(object)`: for each key in turn, append '&' unless it is the first,
   * then `key=encode(value)`.
   */
  method GetFormData(fields: seq<(string, string)>, encode: string -> string) returns (returnString: string)
    ensures returnString == Encoded(fields, encode)
  {
    returnString := "";
    for index := 0 to |fields|
      invariant returnString == Join(Pairs(fields[..index], encode), '&')
    {
      var key := fields[index].0;
      returnString := returnString + (if index == 0 then "" else "&") + key + "=" + encode(fields[index].1);
      PairsSnoc(fields, index, encode);
      JoinSnoc(Pairs(fields[..index], encode), '&', Pair(fields[index], encode));
    }
    assert fields[..|fields|] == fields;
  }

  /**
   * The encoding of the fields splits back into their `key=value` pairs, in key order,
   * when neither the keys nor the encoded values contain an '&'.
   */
  lemma SplitEncoded(fields: seq<(string, string)>, encode: string -> string)
    requires |fields| >= 1
    requires forall i :: 0 <= i < |fields| ==> '&' !in fields[i].0 && '&' !in encode(fields[i].1)
    ensures Split(Encoded(fields, encode), '&') == Pairs(fields, encode)
  {
    var ps := Pairs(fields, encode);
    forall i | 0 <= i < |ps|
      ensures '&' !in ps[i]
    {
      assert ps[i] == fields[i].0 + ("=" + encode(fields[i].1));
    }
    SplitJoin(ps, '&');
  }

  /** An empty object encodes to the empty string; otherwise the first pair comes first, with no '&' before it. */
  lemma EncodedStart(fields: seq<(string, string)>, encode: string -> string)
    ensures fields == [] ==> Encoded(fields, encode) == ""
    ensures fields != [] ==> Encoded(fields, encode)[..|Pair(fields[0], encode)|] == Pair(fields[0], encode)
  {
  }
}
