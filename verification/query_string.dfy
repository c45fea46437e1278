/** `Meli#to_url_params` (lib/meli.rb:136-138): every entry of a hash
    written as `key=value`, the pieces joined with `&`, and the WHOLE
    joined string handed to `URI.escape` once. `URI.escape` is a library
    call this model does not interpret: it arrives as the parameter
    `escape`. */
module QueryString {
  import opened RubyHash
  import Text

  /** `"#{k}=#{v}"` for one entry. */
  function PairText(entry: (string, Value)): string
  {
    entry.0 + "=" + Interpolate(entry.1)
  }

  /** `params.collect { |k, v| "#{k}=#{v}" }` */
  function Collect(params: Hash): (pieces: seq<string>)
    ensures |pieces| == |params|
    ensures forall i :: 0 <= i < |params| ==> pieces[i] == PairText(params[i])
  {
    seq(|params|, i requires 0 <= i < |params| => PairText(params[i]))
  }

  /** The query before escaping: the pieces joined with `&`. */
  function Unescaped(params: Hash): string
  {
    Text.Join(Collect(params), '&')
  }

  /** `to_url_params(params)`: escaping applied once, to the joined string.
      That string is the first entry's `k=v`, then `&` and the rest's
      joined text when there is more. */
  function ToUrlParams(escape: string -> string, params: Hash): (query: string)
    ensures |params| == 0 ==> query == escape("")
    ensures |params| == 1 ==> query == escape(PairText(params[0]))
    ensures |params| > 1 ==> query == escape(PairText(params[0]) + "&" + Unescaped(params[1..]))
  {
    assert |params| > 0 ==> Collect(params)[1..] == Collect(params[1..]);
    escape(Unescaped(params))
  }

  lemma CollectThree(e0: (string, Value), e1: (string, Value), e2: (string, Value))
    ensures Collect([e0, e1, e2]) == [PairText(e0), PairText(e1), PairText(e2)]
  {
  }

  /** Reads `key=value` back, cutting at the first `=`; text without `=` is a bare key. */
  function ParsePair(piece: string): (kv: (string, string))
    ensures '=' !in kv.0
    ensures piece == (if '=' in piece then kv.0 + "=" + kv.1 else kv.0)
  {
    if '=' in piece then
      var i := Text.IndexOf(piece, '=');
      assert piece == piece[..i] + "=" + piece[i + 1..];
      (piece[..i], piece[i + 1..])
    else (piece, "")
  }

  /** Reads an unescaped query back into its `(key, value)` texts. */
  function Decode(query: string): (kvs: seq<(string, string)>)
    ensures |kvs| == |Text.Split(query, '&')|
  {
    var pieces := Text.Split(query, '&');
    seq(|pieces|, i requires 0 <= i < |pieces| => ParsePair(pieces[i]))
  }

  /** What a hash looks like once printed: keys, and values as interpolated. */
  function Texts(params: Hash): (kvs: seq<(string, string)>)
    ensures |kvs| == |params|
  {
    seq(|params|, i requires 0 <= i < |params| => (params[i].0, Interpolate(params[i].1)))
  }

  /** No entry of `params` would be misread once joined: keys free of `&`
      and `=`, values free of `&`. */
  predicate Unambiguous(params: Hash)
  {
    forall i :: 0 <= i < |params| ==>
      '&' !in params[i].0 && '=' !in params[i].0 && '&' !in Interpolate(params[i].1)
  }

  lemma ParsePairText(k: string, v: string)
    requires '=' !in k
    ensures ParsePair(k + "=" + v) == (k, v)
  {
    var piece := k + "=" + v;
    assert piece == k + ['='] + v;
    Text.IndexOfAfterPrefix(k, '=', v);
    assert piece[..|k|] == k;
    assert piece[|k| + 1..] == v;
  }

  /** The query is a faithful encoding of a non-empty hash whose keys and
      values carry no structural characters: decoding it gives every entry
      back, in order. */
  lemma {:induction false} DecodeUnescaped(params: Hash)
    requires |params| > 0
    requires Unambiguous(params)
    ensures Decode(Unescaped(params)) == Texts(params)
  {
    var pieces := Collect(params);
    forall k | 0 <= k < |pieces|
      ensures '&' !in pieces[k]
    {
      assert pieces[k] == params[k].0 + ['='] + Interpolate(params[k].1);
    }
    Text.SplitJoin(pieces, '&');
    forall i | 0 <= i < |params|
      ensures Decode(Unescaped(params))[i] == Texts(params)[i]
    {
      ParsePairText(params[i].0, Interpolate(params[i].1));
    }
  }

  /** Because escaping sees only the joined string, two hashes with the same
      joined text give the same query, whatever `escape` does. */
  lemma EscapeSeesOnlyJoined(escape: string -> string, p: Hash, q: Hash)
    requires Unescaped(p) == Unescaped(q)
    ensures ToUrlParams(escape, p) == ToUrlParams(escape, q)
  {
  }

  /** The consequence: a value holding `&` and `=` yields the same query as
      two separate entries, so the server cannot tell them apart. */
  lemma {:induction false} AmpersandInValueCollides(escape: string -> string)
    ensures ToUrlParams(escape, [("a", Some("b&c=d"))])
         == ToUrlParams(escape, [("a", Some("b")), ("c", Some("d"))])
  {
    var one: Hash := [("a", Some("b&c=d"))];
    var two: Hash := [("a", Some("b")), ("c", Some("d"))];
    assert PairText(one[0]) == "a=b&c=d";
    assert PairText(two[0]) == "a=b";
    assert PairText(two[1]) == "c=d";
    assert Collect(one) == ["a=b&c=d"];
    assert Collect(two) == ["a=b", "c=d"];
    assert Text.Join(["a=b", "c=d"], '&') == "a=b" + "&" + Text.Join(["c=d"], '&');
    assert "a=b" + "&" + "c=d" == "a=b&c=d";
    assert Unescaped(one) == Unescaped(two);
  }
}
