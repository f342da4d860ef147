/** The `extra_request_headers` option of the cursor: a string of the form
    "k1=v1,k2=v2" parsed into the map of headers added to every request. */
module Headers {
  import opened Protocol

  /** Python's str.split with a one-character separator: the pieces between
      separators, always at least one, empty pieces kept. */
  function Split(s: string, sep: char): (r: seq<string>)
    ensures |r| >= 1
    ensures forall i :: 0 <= i < |r| ==> sep !in r[i]
  {
    if s == [] then [""]
    else
      var rest := Split(s[1..], sep);
      if s[0] == sep then [""] + rest
      else [[s[0]] + rest[0]] + rest[1..]
  }

  /** sep.join(parts) */
  function Join(parts: seq<string>, sep: char): string
    requires |parts| >= 1
  {
    if |parts| == 1 then parts[0] else parts[0] + [sep] + Join(parts[1..], sep)
  }

  /** Joining the pieces of a split gives back the string. */
  lemma {:induction false} JoinSplit(s: string, sep: char)
    ensures Join(Split(s, sep), sep) == s
  {
    if s != [] {
      var rest := Split(s[1..], sep);
      JoinSplit(s[1..], sep);
      if s[0] == sep {
        assert ([""] + rest)[1..] == rest;
        assert s == [sep] + s[1..];
      } else {
        var r := [[s[0]] + rest[0]] + rest[1..];
        if |rest| == 1 {
          assert s == [s[0]] + s[1..];
        } else {
          assert r[1..] == rest[1..];
          assert Join(rest, sep) == rest[0] + [sep] + Join(rest[1..], sep);
          assert s == [s[0]] + s[1..];
        }
      }
    }
  }

  lemma {:induction false} SplitNoSep(p: string, sep: char)
    requires sep !in p
    ensures Split(p, sep) == [p]
  {
    if p != [] {
      SplitNoSep(p[1..], sep);
      assert p == [p[0]] + p[1..];
    }
  }

  /** Splitting a part followed by the separator and more. */
  lemma {:induction false} SplitPrefix(p: string, sep: char, tail: string)
    requires sep !in p
    ensures Split(p + [sep] + tail, sep) == [p] + Split(tail, sep)
    decreases |p|
  {
    if p == [] {
      assert p + [sep] + tail == [sep] + tail;
      assert ([sep] + tail)[1..] == tail;
    } else {
      var s := p + [sep] + tail;
      assert s[0] == p[0] && s[1..] == p[1..] + [sep] + tail;
      SplitPrefix(p[1..], sep, tail);
      assert p == [p[0]] + p[1..];
    }
  }

  /** Splitting a join of separator-free parts gives back the parts. */
  lemma {:induction false} SplitJoin(parts: seq<string>, sep: char)
    requires |parts| >= 1
    requires forall i :: 0 <= i < |parts| ==> sep !in parts[i]
    ensures Split(Join(parts, sep), sep) == parts
    decreases |parts|
  {
    if |parts| == 1 {
      SplitNoSep(parts[0], sep);
    } else {
      SplitJoin(parts[1..], sep);
      SplitPrefix(parts[0], sep, Join(parts[1..], sep));
      assert parts == [parts[0]] + parts[1..];
    }
  }

  /** The pieces pieces[i..] added to `acc`; each must split on '=' into
      exactly a key and a value (else the unpacking raises ValueError), and a
      later key replaces an earlier one. */
  function HeadersFrom(pieces: seq<string>, i: nat, acc: map<string, string>): Result<map<string, string>>
    requires i <= |pieces|
    decreases |pieces| - i
  {
    if i == |pieces| then Ok(acc)
    else
      var kv := Split(pieces[i], '=');
      if |kv| != 2 then Err(ValueError) else HeadersFrom(pieces, i + 1, acc[kv[0] := kv[1]])
  }

  /** The extra request headers given as "k1=v1,k2=v2"; the empty string
      means none. */
  function ExtraHeaders(s: string): Result<map<string, string>> {
    if s == "" then Ok(map[]) else HeadersFrom(Split(s, ','), 0, map[])
  }

  /** The parsing loop of the cursor's constructor. */
  method ParseExtraHeaders(s: string) returns (r: Result<map<string, string>>)
    ensures r == ExtraHeaders(s)
  {
    var headers: map<string, string> := map[];
    if s == "" {
      return Ok(headers);
    }
    var pieces := Split(s, ',');
    var i := 0;
    while i < |pieces|
      invariant i <= |pieces|
      invariant HeadersFrom(pieces, i, headers) == ExtraHeaders(s)
    {
      var kv := Split(pieces[i], '=');
      if |kv| != 2 {
        return Err(ValueError);
      }
      headers := headers[kv[0] := kv[1]];
      i := i + 1;
    }
    return Ok(headers);
  }

  /** The map built from (key, value) pairs in order, a later pair winning. */
  function MapOf(pairs: seq<(string, string)>): map<string, string>
    decreases |pairs|
  {
    if pairs == [] then map[]
    else MapOf(pairs[..|pairs| - 1])[pairs[|pairs| - 1].0 := pairs[|pairs| - 1].1]
  }

  function Render(pairs: seq<(string, string)>): (r: seq<string>)
    ensures |r| == |pairs| && forall i :: 0 <= i < |pairs| ==> r[i] == pairs[i].0 + "=" + pairs[i].1
  {
    seq(|pairs|, i requires 0 <= i < |pairs| => pairs[i].0 + "=" + pairs[i].1)
  }

  ghost predicate PlainPairs(pairs: seq<(string, string)>) {
    forall i :: 0 <= i < |pairs| ==>
      ',' !in pairs[i].0 && '=' !in pairs[i].0 && ',' !in pairs[i].1 && '=' !in pairs[i].1
  }

  lemma {:induction false} HeadersFromPairs(pairs: seq<(string, string)>, i: nat)
    requires i <= |pairs| && PlainPairs(pairs)
    ensures HeadersFrom(Render(pairs), i, MapOf(pairs[..i])) == Ok(MapOf(pairs))
    decreases |pairs| - i
  {
    if i == |pairs| {
      assert pairs[..i] == pairs;
    } else {
      var k := pairs[i].0;
      var v := pairs[i].1;
      assert Join([k, v], '=') == k + "=" + v;
      SplitJoin([k, v], '=');
      assert pairs[..i + 1][..i] == pairs[..i];
      HeadersFromPairs(pairs, i + 1);
    }
  }

  /** Rendering pairs free of ',' and '=' as "k1=v1,k2=v2" and parsing the
      result gives the map of the pairs, a repeated key taking its last value. */
  lemma ExtraHeadersRoundTrip(pairs: seq<(string, string)>)
    requires |pairs| >= 1 && PlainPairs(pairs)
    ensures ExtraHeaders(Join(Render(pairs), ',')) == Ok(MapOf(pairs))
  {
    var pieces := Render(pairs);
    forall i | 0 <= i < |pieces|
      ensures ',' !in pieces[i]
    {
      assert pieces[i] == pairs[i].0 + "=" + pairs[i].1;
    }
    SplitJoin(pieces, ',');
    JoinNonEmpty(pieces, ',');
    HeadersFromPairs(pairs, 0);
    assert pairs[..0] == [];
  }

  lemma {:induction false} JoinNonEmpty(parts: seq<string>, sep: char)
    requires |parts| >= 1 && parts[0] != ""
    ensures Join(parts, sep) != ""
  {
    if |parts| > 1 {
      assert |Join(parts, sep)| >= |parts[0]|;
    }
  }

  /** Parsing fails exactly when some comma-separated piece does not contain
      exactly one '=', and then with ValueError. */
  lemma {:induction false} HeadersFromFails(pieces: seq<string>, i: nat, acc: map<string, string>)
    requires i <= |pieces|
    ensures HeadersFrom(pieces, i, acc).Ok? <==> forall j :: i <= j < |pieces| ==> |Split(pieces[j], '=')| == 2
    ensures HeadersFrom(pieces, i, acc).Err? ==> HeadersFrom(pieces, i, acc).error == ValueError
    decreases |pieces| - i
  {
    if i < |pieces| {
      var kv := Split(pieces[i], '=');
      if |kv| == 2 {
        HeadersFromFails(pieces, i + 1, acc[kv[0] := kv[1]]);
      }
    }
  }

  lemma ExtraHeadersFails(s: string)
    ensures ExtraHeaders(s).Ok? <==> s == "" || forall j :: 0 <= j < |Split(s, ',')| ==> |Split(Split(s, ',')[j], '=')| == 2
    ensures ExtraHeaders(s).Err? ==> ExtraHeaders(s).error == ValueError
  {
    if s != "" {
      assert ExtraHeaders(s) == HeadersFrom(Split(s, ','), 0, map[]);
      HeadersFromFails(Split(s, ','), 0, map[]);
    }
  }
}
