/** URL helpers: building and parsing form-urlencoded query strings, the
    percent-encoding clean-up rules, and the host of a URL.

    The JDK codecs are parameters: `encode` is `URLEncoder.encode(_, "UTF-8")`,
    `decode` is `URLDecoder.decode(_, "UTF-8")`, which answers `None` where
    the JDK throws `IllegalArgumentException` on a malformed escape. A Java
    map is its entries in iteration order (`Params`), a value possibly null. */
module URLUtils {
  import opened Wrappers
  import opened Throwables
  import opened Strings

  const EMPTY_STRING: string := ""
  const PAIR_SEPARATOR: char := '='
  const PARAM_SEPARATOR: char := '&'
  const QUERY_STRING_SEPARATOR: char := '?'

  type Params = seq<(string, Option<string>)>

  // ---------------------------------------------------------------------------
  // Joining and splitting

  /** The parts with `sep` between consecutive ones. */
  function Join(parts: seq<string>, sep: char): string
    decreases |parts|
  {
    if parts == [] then ""
    else if |parts| == 1 then parts[0]
    else parts[0] + [sep] + Join(parts[1..], sep)
  }

  /** Each part preceded by `sep`, as `doFormUrlEncode` fills its buffer. */
  function Prefixed(parts: seq<string>, sep: char): string
    decreases |parts|
  {
    if parts == [] then "" else [sep] + parts[0] + Prefixed(parts[1..], sep)
  }

  /** Each part followed by `sep`, as `concatSortedPercentEncodedParams`
      fills its builder. */
  function Suffixed(parts: seq<string>, sep: char): string
    decreases |parts|
  {
    if parts == [] then "" else parts[0] + [sep] + Suffixed(parts[1..], sep)
  }

  /** Dropping the leading separator of the prefixed form leaves the join. */
  lemma {:induction false} PrefixedIsJoin(parts: seq<string>, sep: char)
    requires parts != []
    ensures |Prefixed(parts, sep)| >= 1 && Prefixed(parts, sep)[1..] == Join(parts, sep)
    decreases |parts|
  {
    var rest := parts[1..];
    if rest != [] {
      PrefixedIsJoin(rest, sep);
      var p := Prefixed(rest, sep);
      assert p == [sep] + p[1..];
      assert Prefixed(parts, sep)[1..] == parts[0] + p;
    } else {
      assert Prefixed(parts, sep)[1..] == parts[0];
    }
  }

  /** Dropping the trailing separator of the suffixed form leaves the join. */
  lemma {:induction false} SuffixedIsJoin(parts: seq<string>, sep: char)
    ensures Suffixed(parts, sep) == if parts == [] then "" else Join(parts, sep) + [sep]
    decreases |parts|
  {
    if parts != [] {
      SuffixedIsJoin(parts[1..], sep);
      if |parts| > 1 {
        assert Suffixed(parts, sep) == parts[0] + [sep] + (Join(parts[1..], sep) + [sep]);
      }
    }
  }

  function IndexOf(s: string, c: char): (i: nat)
    requires c in s
    ensures i < |s| && s[i] == c
    decreases |s|
  {
    if s[0] == c then 0 else 1 + IndexOf(s[1..], c)
  }

  /** The pieces of `s` between occurrences of `c`: one more than there are `c`s. */
  function Fields(s: string, c: char): (r: seq<string>)
    ensures |r| >= 1
    decreases |s|
  {
    if c !in s then [s]
    else
      var i := IndexOf(s, c);
      [s[..i]] + Fields(s[i + 1..], c)
  }

  function DropTrailingEmpty(xs: seq<string>): (r: seq<string>)
    ensures |r| <= |xs| && r == xs[..|r|]
    ensures r == [] || r[|r| - 1] != ""
    ensures forall i :: |r| <= i < |xs| ==> xs[i] == ""
    decreases |xs|
  {
    if xs == [] then []
    else if xs[|xs| - 1] == "" then DropTrailingEmpty(xs[..|xs| - 1])
    else xs
  }

  /** `String.split` with a one-character separator: a string without the
      separator is its own only piece (even when empty); otherwise the pieces
      between separators, less the empty ones at the end. */
  function Split(s: string, c: char): (r: seq<string>)
    ensures c !in s ==> r == [s]
  {
    if c !in s then [s] else DropTrailingEmpty(Fields(s, c))
  }

  lemma {:induction false} IndexOfAfter(a: string, b: string, c: char)
    requires c !in a
    ensures IndexOf(a + [c] + b, c) == |a|
    decreases |a|
  {
    if a != [] {
      assert (a + [c] + b)[1..] == a[1..] + [c] + b;
      IndexOfAfter(a[1..], b, c);
    }
  }

  /** Splitting a join into its fields gives the parts back. */
  lemma {:induction false} FieldsOfJoin(parts: seq<string>, c: char)
    requires parts != [] && forall i :: 0 <= i < |parts| ==> c !in parts[i]
    ensures Fields(Join(parts, c), c) == parts
    decreases |parts|
  {
    if |parts| > 1 {
      var rest := Join(parts[1..], c);
      var s := parts[0] + [c] + rest;
      IndexOfAfter(parts[0], rest, c);
      assert s[..|parts[0]|] == parts[0];
      assert s[|parts[0]| + 1..] == rest;
      FieldsOfJoin(parts[1..], c);
    }
  }

  /** `String.split` undoes a join whose parts avoid the separator and whose
      last part is not empty. */
  lemma SplitOfJoin(parts: seq<string>, c: char)
    requires parts != [] && parts[|parts| - 1] != ""
    requires forall i :: 0 <= i < |parts| ==> c !in parts[i]
    ensures Split(Join(parts, c), c) == parts
  {
    FieldsOfJoin(parts, c);
  }

  // ---------------------------------------------------------------------------
  // Building query strings

  /** One encoded parameter: `key`, or `key=value` when the value is not null. */
  function Pair(key: string, value: Option<string>, encode: string -> string): string {
    encode(key) + if value.Some? then [PAIR_SEPARATOR] + encode(value.value) else ""
  }

  function Pairs(m: Params, encode: string -> string): (r: seq<string>)
    ensures |r| == |m|
    ensures forall i :: 0 <= i < |m| ==> r[i] == Pair(m[i].0, m[i].1, encode)
  {
    seq(|m|, i requires 0 <= i < |m| => Pair(m[i].0, m[i].1, encode))
  }

  /** `formURLEncodeMap`: the empty string for an empty map; otherwise the
      encoded parameters in iteration order, joined by `&`. */
  function FormURLEncodeMap(m: Params, encode: string -> string): (r: string)
    ensures m == [] ==> r == EMPTY_STRING
    ensures m != [] ==> r == Join(Pairs(m, encode), PARAM_SEPARATOR)
  {
    if |m| <= 0 then EMPTY_STRING
    else
      var buffer := Prefixed(Pairs(m, encode), PARAM_SEPARATOR);
      PrefixedIsJoin(Pairs(m, encode), PARAM_SEPARATOR);
      buffer[1..]
  }

  /** `appendParametersToQueryString`: the URL unchanged when the encoded
      parameters are empty; otherwise they follow a `&` when the URL already
      has a query, a `?` when not. */
  function AppendParametersToQueryString(url: string, params: Params, encode: string -> string): (r: string)
    ensures FormURLEncodeMap(params, encode) == EMPTY_STRING ==> r == url
    ensures FormURLEncodeMap(params, encode) != EMPTY_STRING ==>
              && |r| == |url| + 1 + |FormURLEncodeMap(params, encode)|
              && r[..|url|] == url
              && r[|url|] == (if QUERY_STRING_SEPARATOR in url then PARAM_SEPARATOR else QUERY_STRING_SEPARATOR)
              && r[|url| + 1..] == FormURLEncodeMap(params, encode)
  {
    var queryString := FormURLEncodeMap(params, encode);
    if queryString == EMPTY_STRING then url
    else
      var sep := if QUERY_STRING_SEPARATOR in url then PARAM_SEPARATOR else QUERY_STRING_SEPARATOR;
      var r := url + [sep] + queryString;
      assert r[..|url|] == url && r[|url| + 1..] == queryString;
      r
  }

  /** What `StringBuilder.append(Object)` writes for a possibly-null string. */
  function Render(v: Option<string>): string {
    if v.Some? then v.value else "null"
  }

  function Rendered(params: Params): (r: seq<string>)
    ensures |r| == |params|
    ensures forall i :: 0 <= i < |params| ==> r[i] == params[i].0 + [PAIR_SEPARATOR] + Render(params[i].1)
  {
    seq(|params|, i requires 0 <= i < |params| => params[i].0 + [PAIR_SEPARATOR] + Render(params[i].1))
  }

  /** `concatSortedPercentEncodedParams`: `key=value` for each entry, as they
      are, joined by `&` with no trailing separator; an empty map makes the
      final `substring(0, -1)` throw. */
  function ConcatSortedPercentEncodedParams(params: Params): (r: Result<string, Throwable>)
    ensures r.Err? <==> params == []
    ensures r.Err? ==> r.error.cls == IndexOutOfBoundsException
    ensures r.Ok? ==> r.value == Join(Rendered(params), PARAM_SEPARATOR)
  {
    var result := Suffixed(Rendered(params), PARAM_SEPARATOR);
    SuffixedIsJoin(Rendered(params), PARAM_SEPARATOR);
    if |result| - 1 < 0 then Err(Raise(IndexOutOfBoundsException, "String index out of range: -1"))
    else
      assert result[..|result| - 1] == Join(Rendered(params), PARAM_SEPARATOR);
      Ok(result[..|result| - 1])
  }

  // ---------------------------------------------------------------------------
  // Parsing query strings

  /** The entries of a Java map put one after another into a `HashMap`:
      a later entry for a key overrides an earlier one. A null value is
      taken as the empty string, which is what a parse of it yields. */
  function ToMap(m: Params): (r: map<string, string>)
    ensures forall k :: k in r <==> exists i :: 0 <= i < |m| && m[i].0 == k
    decreases |m|
  {
    if m == [] then map[]
    else
      var rest := ToMap(m[1..]);
      assert forall i :: 0 < i < |m| ==> m[i] == m[1..][i - 1];
      map[m[0].0 := m[0].1.GetOr(EMPTY_STRING)] + rest
  }

  /** One parameter split at `=`: the first piece decoded as the key, the
      second (or the empty string) as the value. A parameter that splits
      into nothing has no first piece to read. */
  function ParseParam(param: string, decode: string -> Option<string>): (r: Result<(string, string), Throwable>)
    ensures r.Err? ==> r.error.cls in {IndexOutOfBoundsException, IllegalArgumentException}
  {
    var pair := Split(param, PAIR_SEPARATOR);
    if |pair| == 0 then Err(Raise(IndexOutOfBoundsException, "0"))
    else
      var key := decode(pair[0]);
      var value := if |pair| > 1 then decode(pair[1]) else Some(EMPTY_STRING);
      if key.None? || value.None? then
        Err(Raise(IllegalArgumentException, "URLDecoder: Illegal hex characters in escape (%) pattern"))
      else Ok((key.value, value.value))
  }

  /** The parameters of a query string from the first on, put into `acc`. */
  function PutParams(acc: map<string, string>, params: seq<string>, decode: string -> Option<string>)
    : (r: Result<map<string, string>, Throwable>)
    ensures r.Err? ==> r.error.cls in {IndexOutOfBoundsException, IllegalArgumentException}
    decreases |params|
  {
    if params == [] then Ok(acc)
    else match ParseParam(params[0], decode)
      case Err(e) => Err(e)
      case Ok(kv) => PutParams(acc[kv.0 := kv.1], params[1..], decode)
  }

  /** `queryStringToMap`: an empty map for a null or empty query string;
      otherwise each `&`-separated parameter is split at `=`, its first
      piece decoded as the key and its second (or the empty string) as the
      value; pieces after the second are ignored. */
  function QueryStringToMap(queryString: Option<string>, decode: string -> Option<string>)
    : (r: Result<map<string, string>, Throwable>)
    ensures queryString.None? || queryString.value == "" ==> r == Ok(map[])
    ensures r.Err? ==> r.error.cls in {IndexOutOfBoundsException, IllegalArgumentException}
  {
    if queryString.None? || |queryString.value| == 0 then Ok(map[])
    else PutParams(map[], Split(queryString.value, PARAM_SEPARATOR), decode)
  }

  /** A parameter that is a lone `=` splits into nothing, and reading its
      key throws. */
  lemma LoneSeparatorThrows(decode: string -> Option<string>)
    ensures QueryStringToMap(Some("="), decode).Err?
    ensures QueryStringToMap(Some("="), decode).error.cls == IndexOutOfBoundsException
  {
    assert "="[1..] == "";
    assert Fields("=", '=') == ["", ""];
    assert Split("=", '=') == [];
    assert Split("=", '&') == ["="];
  }

  /** In `a=b=c` only `a` and `b` count. */
  lemma ThirdPieceIgnored(a: string, b: string, c: string, decode: string -> Option<string>)
    requires a != "" && b != "" && PAIR_SEPARATOR !in a && PAIR_SEPARATOR !in b
    requires PARAM_SEPARATOR !in a + [PAIR_SEPARATOR] + b + [PAIR_SEPARATOR] + c
    requires decode(a).Some? && decode(b).Some?
    ensures QueryStringToMap(Some(a + [PAIR_SEPARATOR] + b + [PAIR_SEPARATOR] + c), decode)
              == Ok(map[decode(a).value := decode(b).value])
  {
    var s := a + [PAIR_SEPARATOR] + b + [PAIR_SEPARATOR] + c;
    FirstTwoPieces(a, b, c);
    assert ParseParam(s, decode) == Ok((decode(a).value, decode(b).value));
    assert Split(s, PARAM_SEPARATOR) == [s];
    assert PutParams(map[], [s], decode) == PutParams(map[decode(a).value := decode(b).value], [], decode);
  }

  lemma FirstTwoPieces(a: string, b: string, c: string)
    requires a != "" && b != "" && PAIR_SEPARATOR !in a && PAIR_SEPARATOR !in b
    ensures var pair := Split(a + [PAIR_SEPARATOR] + b + [PAIR_SEPARATOR] + c, PAIR_SEPARATOR);
            |pair| >= 2 && pair[0] == a && pair[1] == b
  {
    var s := a + [PAIR_SEPARATOR] + b + [PAIR_SEPARATOR] + c;
    var fields := FirstTwoFields(a, b, c);
    assert s[|a|] == PAIR_SEPARATOR;
    assert Split(s, PAIR_SEPARATOR) == DropTrailingEmpty(fields);
    KeepsUpToNonEmpty(fields, 2);
  }

  /** The first two fields of `a=b=c` are `a` and `b`. */
  lemma FirstTwoFields(a: string, b: string, c: string) returns (fields: seq<string>)
    requires PAIR_SEPARATOR !in a && PAIR_SEPARATOR !in b
    ensures fields == Fields(a + [PAIR_SEPARATOR] + b + [PAIR_SEPARATOR] + c, PAIR_SEPARATOR)
    ensures |fields| >= 2 && fields[0] == a && fields[1] == b
  {
    var bc := b + [PAIR_SEPARATOR] + c;
    ConcatAssoc(a + [PAIR_SEPARATOR], b + [PAIR_SEPARATOR], c);
    ConcatAssoc(a + [PAIR_SEPARATOR], b, [PAIR_SEPARATOR]);
    assert a + [PAIR_SEPARATOR] + bc == a + [PAIR_SEPARATOR] + b + [PAIR_SEPARATOR] + c;
    FieldsCons(a, bc, PAIR_SEPARATOR);
    FieldsCons(b, c, PAIR_SEPARATOR);
    fields := [a] + ([b] + Fields(c, PAIR_SEPARATOR));
  }

  /** Dropping the empty pieces at the end keeps every piece up to a
      non-empty one. */
  lemma KeepsUpToNonEmpty(xs: seq<string>, n: nat)
    requires 0 < n <= |xs| && xs[n - 1] != ""
    ensures |DropTrailingEmpty(xs)| >= n
    ensures forall i :: 0 <= i < n ==> DropTrailingEmpty(xs)[i] == xs[i]
  {
    var r := DropTrailingEmpty(xs);
    assert |r| >= n;
    forall i | 0 <= i < n
      ensures r[i] == xs[i]
    {
      assert r[i] == xs[..|r|][i];
    }
  }

  lemma FieldsCons(a: string, rest: string, c: char)
    requires c !in a
    ensures Fields(a + [c] + rest, c) == [a] + Fields(rest, c)
  {
    var s := a + [c] + rest;
    IndexOfAfter(a, rest, c);
    assert s[|a|] == c;
    assert s[..|a|] == a && s[|a| + 1..] == rest;
  }

  /** How one encoded parameter splits at `=`: its key, and its value
      unless that is missing or empty. */
  lemma PairSplits(ek: string, ev: Option<string>)
    requires ek != "" && PAIR_SEPARATOR !in ek
    requires ev.Some? ==> PAIR_SEPARATOR !in ev.value
    ensures Split(ek + if ev.Some? then [PAIR_SEPARATOR] + ev.value else "", PAIR_SEPARATOR)
              == if ev.Some? && ev.value != "" then [ek, ev.value] else [ek]
  {
    if ev.Some? {
      var s := ek + [PAIR_SEPARATOR] + ev.value;
      FieldsOfJoin([ek, ev.value], PAIR_SEPARATOR);
      assert Join([ek, ev.value], PAIR_SEPARATOR) == s;
      assert s[|ek|] == PAIR_SEPARATOR;
      assert ek + ([PAIR_SEPARATOR] + ev.value) == s;
      if ev.value == "" {
        assert [ek, ev.value][..1] == [ek];
        assert DropTrailingEmpty([ek, ev.value]) == [ek];
      }
    } else {
      assert ek + "" == ek;
    }
  }

  /** What a codec must do for a query string to parse back: decoding undoes
      encoding, encoded text holds neither separator, and only the empty
      string encodes to the empty string. */
  ghost predicate Codec(encode: string -> string, decode: string -> Option<string>) {
    forall x :: decode(encode(x)) == Some(x) && PAIR_SEPARATOR !in encode(x) && PARAM_SEPARATOR !in encode(x)
                && (encode(x) == "" ==> x == "")
  }

  /** One encoded parameter parses back to its key and value (a null value
      to the empty string). */
  lemma ParamParsesBack(key: string, value: Option<string>, encode: string -> string, decode: string -> Option<string>)
    requires Codec(encode, decode) && key != ""
    ensures ParseParam(Pair(key, value, encode), decode) == Ok((key, value.GetOr(EMPTY_STRING)))
  {
    var ek := encode(key);
    assert decode(ek) == Some(key) && ek != "" && PAIR_SEPARATOR !in ek;
    if value.Some? {
      var ev := encode(value.value);
      assert decode(ev) == Some(value.value) && PAIR_SEPARATOR !in ev && (ev == "" ==> value.value == "");
      PairSplits(ek, Some(ev));
    } else {
      PairSplits(ek, None);
    }
  }

  /** Putting one entry and then a map into `acc` equals putting into `acc`
      the map extended below by that entry. */
  lemma MapUnionStep(acc: map<string, string>, k: string, v: string, rest: map<string, string>,
                     whole: map<string, string>)
    requires whole == map[k := v] + rest
    ensures acc[k := v] + rest == acc + whole
  {
  }

  /** The parameters of a query string that an encoded map produced, put
      into `acc`, add the map's entries to `acc`. */
  lemma {:induction false} PutPairsAddsMap(acc: map<string, string>, m: Params,
                                           encode: string -> string, decode: string -> Option<string>)
    requires Codec(encode, decode)
    requires forall i :: 0 <= i < |m| ==> m[i].0 != ""
    ensures PutParams(acc, Pairs(m, encode), decode) == Ok(acc + ToMap(m))
    decreases |m|
  {
    if m != [] {
      ParamParsesBack(m[0].0, m[0].1, encode, decode);
      var acc1 := acc[m[0].0 := m[0].1.GetOr(EMPTY_STRING)];
      var pairs := Pairs(m, encode);
      assert pairs[1..] == Pairs(m[1..], encode);
      assert PutParams(acc, pairs, decode) == PutParams(acc1, pairs[1..], decode);
      PutPairsAddsMap(acc1, m[1..], encode, decode);
      MapUnionStep(acc, m[0].0, m[0].1.GetOr(EMPTY_STRING), ToMap(m[1..]), ToMap(m));
    } else {
      assert Pairs(m, encode) == [];
      assert acc + ToMap(m) == acc;
    }
  }

  /** An encoded parameter with a non-empty key is non-empty and holds no `&`. */
  lemma PairHasNoAmpersand(key: string, value: Option<string>, encode: string -> string,
                           decode: string -> Option<string>)
    requires Codec(encode, decode) && key != ""
    ensures PARAM_SEPARATOR !in Pair(key, value, encode) && Pair(key, value, encode) != ""
  {
    var ek := encode(key);
    assert ek != "" && PARAM_SEPARATOR !in ek;
    assert Pair(key, value, encode)[..|ek|] == ek;
    if value.Some? {
      var ev := encode(value.value);
      assert PARAM_SEPARATOR !in ev;
      assert Pair(key, value, encode) == ek + ([PAIR_SEPARATOR] + ev);
    }
  }

  /** Round trip: with a codec whose decoding undoes its encoding and whose
      output avoids `&` and `=`, parsing the query string built from a map
      with non-empty keys gives the map back, a null value coming back as
      the empty string. */
  lemma QueryStringRoundTrip(m: Params, encode: string -> string, decode: string -> Option<string>)
    requires Codec(encode, decode)
    requires forall i :: 0 <= i < |m| ==> m[i].0 != ""
    ensures QueryStringToMap(Some(FormURLEncodeMap(m, encode)), decode) == Ok(ToMap(m))
  {
    if m != [] {
      var pairs := Pairs(m, encode);
      forall i | 0 <= i < |pairs|
        ensures PARAM_SEPARATOR !in pairs[i] && pairs[i] != ""
      {
        PairHasNoAmpersand(m[i].0, m[i].1, encode, decode);
      }
      var q := FormURLEncodeMap(m, encode);
      assert q == Join(pairs, PARAM_SEPARATOR);
      SplitOfJoin(pairs, PARAM_SEPARATOR);
      JoinStartsWithFirst(pairs, PARAM_SEPARATOR);
      assert QueryStringToMap(Some(q), decode) == PutParams(map[], pairs, decode);
      PutPairsAddsMap(map[], m, encode, decode);
      EmptyUnion(ToMap(m));
    }
  }

  lemma EmptyUnion(t: map<string, string>)
    ensures map[] + t == t
  {
  }

  lemma JoinStartsWithFirst(parts: seq<string>, sep: char)
    requires parts != []
    ensures |Join(parts, sep)| >= |parts[0]|
  {
  }

  // ---------------------------------------------------------------------------
  // Percent encoding

  /** `String.replace(target, replacement)`: the occurrences of `target`,
      found left to right without overlapping, are replaced; an empty target
      matches before every character and at the end. */
  function Replace(s: string, target: string, replacement: string): string
    decreases |s|
  {
    if target == [] then
      (if s == [] then replacement else replacement + [s[0]] + Replace(s[1..], target, replacement))
    else if s == [] then []
    else if StartsWith(s, target) then replacement + Replace(s[|target|..], target, replacement)
    else [s[0]] + Replace(s[1..], target, replacement)
  }

  /** Every occurrence of the character `c` replaced by `t`. */
  function Subst(s: string, c: char, t: string): string
    decreases |s|
  {
    if s == [] then [] else (if s[0] == c then t else [s[0]]) + Subst(s[1..], c, t)
  }

  /** Replacing a one-character target is substituting that character. */
  lemma {:induction false} ReplaceCharIsSubst(s: string, c: char, t: string)
    ensures Replace(s, [c], t) == Subst(s, c, t)
    decreases |s|
  {
    if s != [] {
      assert StartsWith(s, [c]) <==> s[0] == c;
      ReplaceCharIsSubst(s[1..], c, t);
    }
  }

  lemma {:induction false} SubstAppend(a: string, b: string, c: char, t: string)
    ensures Subst(a + b, c, t) == Subst(a, c, t) + Subst(b, c, t)
    decreases |a|
  {
    if a != [] {
      assert (a + b)[1..] == a[1..] + b;
      SubstAppend(a[1..], b, c, t);
    } else {
      assert a + b == b;
    }
  }

  lemma {:induction false} SubstAbsent(s: string, c: char, t: string)
    requires c !in s
    ensures Subst(s, c, t) == s
    decreases |s|
  {
    if s != [] {
      SubstAbsent(s[1..], c, t);
    }
  }

  /** Substituting two different characters, neither of which occurs in the
      other's replacement, gives the same string in either order. */
  lemma {:induction false} SubstsCommute(s: string, c1: char, t1: string, c2: char, t2: string)
    requires c1 != c2 && c1 !in t2 && c2 !in t1
    ensures Subst(Subst(s, c1, t1), c2, t2) == Subst(Subst(s, c2, t2), c1, t1)
    decreases |s|
  {
    if s != [] {
      var x := s[0];
      var p1 := if x == c1 then t1 else [x];
      var p2 := if x == c2 then t2 else [x];
      SubstAppend(p1, Subst(s[1..], c1, t1), c2, t2);
      SubstAppend(p2, Subst(s[1..], c2, t2), c1, t1);
      if x == c1 {
        SubstAbsent(t1, c2, t2);
      } else if x == c2 {
        SubstAbsent(t2, c1, t1);
      }
      assert Subst(p1, c2, t2) == Subst(p2, c1, t1);
      SubstsCommute(s[1..], c1, t1, c2, t2);
    }
  }

  const ENCODED_TILDE: string := "%7E"

  function Tilde(s: string): string {
    Replace(s, ENCODED_TILDE, "~")
  }

  /** A three-character replacement that starts with `%` but cannot begin or
      continue an encoded tilde passes through the tilde rule unchanged. */
  lemma TildeAfterPiece(t: string, x: string)
    requires |t| == 3 && t[0] == '%' && t[1] != '7' && t[1] != '%' && t[2] != '%'
    ensures Tilde(t + x) == t + Tilde(x)
  {
    var s := t + x;
    assert !StartsWith(s, ENCODED_TILDE);
    assert s[1..] == t[1..] + x;
    assert Tilde(s) == [t[0]] + Tilde(s[1..]);
    assert !StartsWith(s[1..], ENCODED_TILDE);
    assert s[1..][1..] == [t[2]] + x;
    assert Tilde(s[1..]) == [t[1]] + Tilde(s[1..][1..]);
    assert !StartsWith(s[1..][1..], ENCODED_TILDE);
    assert s[1..][1..][1..] == x;
    assert Tilde(s[1..][1..]) == [t[2]] + Tilde(x);
    assert t == [t[0]] + [t[1]] + [t[2]];
  }

  /** A substituted string that starts with `7E` was one already, when the
      substituted character is neither `7` nor `E` and its replacement
      starts with `%`. */
  lemma SubstStartsWith7E(u: string, c: char, t: string)
    requires c != '7' && c != 'E' && t != [] && t[0] == '%'
    ensures StartsWith(Subst(u, c, t), "7E") ==> StartsWith(u, "7E")
  {
    var v := Subst(u, c, t);
    if StartsWith(v, "7E") {
      assert v[0] == '7' && v[1] == 'E' by {
        assert v[..2][0] == v[0] && v[..2][1] == v[1];
      }
      var rest := Subst(u[1..], c, t);
      assert v == (if u[0] == c then t else [u[0]]) + rest;
      assert u[0] == '7';
      assert rest[0] == 'E';
      assert u[1..][1..] == u[2..];
      assert rest == (if u[1] == c then t else [u[1]]) + Subst(u[2..], c, t);
      assert u[..2] == [u[0], u[1]];
    }
  }

  /** The tilde rule and a character rule of the shape `%XY` give the same
      string in either order. */
  lemma {:induction false} SubstCommutesWithTilde(s: string, c: char, t: string)
    requires c != '%' && c != '7' && c != 'E' && c != '~'
    requires |t| == 3 && t[0] == '%' && t[1] != '7' && t[1] != '%' && t[2] != '%'
    ensures Tilde(Subst(s, c, t)) == Subst(Tilde(s), c, t)
    decreases |s|
  {
    if s != [] {
      if StartsWith(s, ENCODED_TILDE) {
        assert s == ENCODED_TILDE + s[3..];
        SubstAppend(ENCODED_TILDE, s[3..], c, t);
        SubstAbsent(ENCODED_TILDE, c, t);
        var y := Subst(s[3..], c, t);
        assert StartsWith(ENCODED_TILDE + y, ENCODED_TILDE);
        assert (ENCODED_TILDE + y)[3..] == y;
        assert Tilde(Subst(s, c, t)) == "~" + Tilde(y);
        assert Tilde(s) == "~" + Tilde(s[3..]);
        SubstAppend("~", Tilde(s[3..]), c, t);
        SubstCommutesWithTilde(s[3..], c, t);
      } else if s[0] == c {
        assert Subst(s, c, t) == t + Subst(s[1..], c, t);
        TildeAfterPiece(t, Subst(s[1..], c, t));
        assert Tilde(s) == [c] + Tilde(s[1..]);
        SubstAppend([c], Tilde(s[1..]), c, t);
        SubstCommutesWithTilde(s[1..], c, t);
      } else {
        var y := Subst(s[1..], c, t);
        assert Subst(s, c, t) == [s[0]] + y;
        SubstStartsWith7E(s[1..], c, t);
        assert |s| >= 3 ==> s[..3] == [s[0]] + s[1..][..2];
        assert !StartsWith([s[0]] + y, ENCODED_TILDE);
        assert ([s[0]] + y)[1..] == y;
        assert Tilde(s) == [s[0]] + Tilde(s[1..]);
        SubstAppend([s[0]], Tilde(s[1..]), c, t);
        SubstCommutesWithTilde(s[1..], c, t);
      }
    }
  }

  /** One entry of the encoding rule set. */
  datatype EncodingRule = EncodingRule(ch: string, toCh: string)

  function Apply(rule: EncodingRule, s: string): string {
    Replace(s, rule.ch, rule.toCh)
  }

  /** The three rules that turn form encoding into percent encoding. */
  const ENCODING_RULES: seq<EncodingRule> :=
    [EncodingRule("*", "%2A"), EncodingRule("+", "%20"), EncodingRule(ENCODED_TILDE, "~")]

  /** The order a hash set of rules, hashed by identity, yields them in:
      some arrangement of the three rules, chosen by the runtime. */
  predicate IsIterationOrder(order: seq<nat>) {
    |order| == 3 && order[0] < 3 && order[1] < 3 && order[2] < 3
    && order[0] != order[1] && order[1] != order[2] && order[0] != order[2]
  }

  /** `percentEncode`: the form encoding of `s`, then each rule in the order
      the rule set is iterated. */
  function PercentEncode(s: string, encode: string -> string, order: seq<nat>): string
    requires IsIterationOrder(order)
  {
    var encoded := encode(s);
    Apply(ENCODING_RULES[order[2]], Apply(ENCODING_RULES[order[1]], Apply(ENCODING_RULES[order[0]], encoded)))
  }

  function Star(x: string): string { Subst(x, '*', "%2A") }
  function Plus(x: string): string { Subst(x, '+', "%20") }

  /** The rules in the order they are listed, written as substitutions. */
  function Canonical(x: string): string {
    Tilde(Plus(Star(x)))
  }

  /** Rule `i` of the set, as a substitution for the two one-character rules. */
  function RuleAt(i: nat, x: string): string
    requires i < 3
  {
    if i == 0 then Star(x) else if i == 1 then Plus(x) else Tilde(x)
  }

  lemma ApplyIsRuleAt(i: nat, x: string)
    requires i < 3
    ensures Apply(ENCODING_RULES[i], x) == RuleAt(i, x)
  {
    if i == 0 {
      ReplaceCharIsSubst(x, '*', "%2A");
    } else if i == 1 {
      ReplaceCharIsSubst(x, '+', "%20");
    }
  }

  /** The three pairwise commutations of the rules. */
  lemma RulesCommute(x: string)
    ensures Plus(Star(x)) == Star(Plus(x))
    ensures Tilde(Star(x)) == Star(Tilde(x))
    ensures Tilde(Plus(x)) == Plus(Tilde(x))
  {
    SubstsCommute(x, '*', "%2A", '+', "%20");
    SubstCommutesWithTilde(x, '*', "%2A");
    SubstCommutesWithTilde(x, '+', "%20");
  }

  /** The result of `percentEncode` does not depend on the order the rule
      set happens to be iterated in. */
  lemma PercentEncodeIgnoresOrder(s: string, encode: string -> string, order: seq<nat>)
    requires IsIterationOrder(order)
    ensures PercentEncode(s, encode, order) == Canonical(encode(s))
  {
    var x := encode(s);
    ApplyIsRuleAt(order[0], x);
    var y1 := RuleAt(order[0], x);
    ApplyIsRuleAt(order[1], y1);
    var y2 := RuleAt(order[1], y1);
    ApplyIsRuleAt(order[2], y2);
    RulesCommute(x);
    RulesCommute(Star(x));
    RulesCommute(Plus(x));
  }

  lemma {:induction false} SubstRemoves(s: string, c: char, t: string)
    requires c !in t
    ensures c !in Subst(s, c, t)
    decreases |s|
  {
    if s != [] {
      SubstRemoves(s[1..], c, t);
    }
  }

  lemma {:induction false} SubstKeepsAbsent(s: string, c: char, t: string, x: char)
    requires x !in s && x !in t
    ensures x !in Subst(s, c, t)
    decreases |s|
  {
    if s != [] {
      SubstKeepsAbsent(s[1..], c, t, x);
    }
  }

  lemma {:induction false} TildeKeepsAbsent(s: string, x: char)
    requires x !in s && x != '~'
    ensures x !in Tilde(s)
    decreases |s|
  {
    if s != [] {
      if StartsWith(s, ENCODED_TILDE) {
        assert s[3..] == s[1..][1..][1..];
        TildeKeepsAbsent(s[3..], x);
      } else {
        TildeKeepsAbsent(s[1..], x);
      }
    }
  }

  /** Whatever the iteration order, a percent-encoded string holds no `*`
      and no `+`: both have become their `%XY` escapes. */
  lemma PercentEncodeEscapesStarAndPlus(s: string, encode: string -> string, order: seq<nat>)
    requires IsIterationOrder(order)
    ensures '*' !in PercentEncode(s, encode, order) && '+' !in PercentEncode(s, encode, order)
  {
    PercentEncodeIgnoresOrder(s, encode, order);
    var x := encode(s);
    SubstRemoves(x, '*', "%2A");
    SubstRemoves(Star(x), '+', "%20");
    SubstKeepsAbsent(Star(x), '+', "%20", '*');
    TildeKeepsAbsent(Plus(Star(x)), '*');
    TildeKeepsAbsent(Plus(Star(x)), '+');
  }

  // ---------------------------------------------------------------------------
  // Host of a URL

  const HTTP_PREFIX: string := "http://"
  const HTTPS_PREFIX: string := "https://"

  /** Case-insensitive `String.regionMatches` of one character against a
      character of the scheme prefixes: equal, or its ASCII upper case, or
      the long s whose upper case is `S`. */
  predicate SameIgnoringCase(c: char, p: char) {
    c == p || ('a' <= p <= 'z' && c as int == p as int - 32) || (p == 's' && c == 'ſ')
  }

  /** `StringUtils.startsWithIgnoreCase` for a non-null string and prefix. */
  predicate StartsWithIgnoreCase(s: string, prefix: string) {
    |prefix| <= |s| && forall i :: 0 <= i < |prefix| ==> SameIgnoringCase(s[i], prefix[i])
  }

  predicate HasScheme(url: string) {
    StartsWithIgnoreCase(url, HTTP_PREFIX) || StartsWithIgnoreCase(url, HTTPS_PREFIX)
  }

  /** The string `parseHost` hands to the URI parser: the URL itself when it
      already starts with an HTTP scheme in any case, otherwise the URL behind
      `http://`; a null URL is concatenated as the text `null`. */
  function UriInput(url: Option<string>): (r: string)
    ensures HasScheme(r)
    ensures EndsWith(r, url.GetOr("null"))
    ensures url.Some? && HasScheme(url.value) ==> r == url.value
    ensures !(url.Some? && HasScheme(url.value)) ==> r == HTTP_PREFIX + url.GetOr("null")
  {
    if url.Some? && HasScheme(url.value) then url.value
    else
      var r := HTTP_PREFIX + url.GetOr("null");
      assert forall i :: 0 <= i < |HTTP_PREFIX| ==> r[i] == HTTP_PREFIX[i];
      assert r[|r| - |url.GetOr("null")|..] == url.GetOr("null");
      r
  }

  /** `parseHost`: the host of the URI built from `UriInput(url)`. The URI
      parser is a parameter: `None` when it rejects its input, otherwise the
      host it finds, which may be null. A rejected URI gives the empty host. */
  function ParseHost(url: Option<string>, uriHost: string -> Option<Option<string>>): (r: Option<string>)
    ensures uriHost(UriInput(url)).None? ==> r == Some(EMPTY_STRING)
    ensures uriHost(UriInput(url)).Some? ==> r == uriHost(UriInput(url)).value
  {
    var returnVal := uriHost(UriInput(url));
    if returnVal.None? then Some(EMPTY_STRING) else returnVal.value
  }

  /** Writing the scheme by hand never changes the host: the URL the parser
      sees already carries one, so nothing is added a second time. */
  lemma ParseHostWithSchemeAdded(url: Option<string>, uriHost: string -> Option<Option<string>>)
    ensures UriInput(Some(UriInput(url))) == UriInput(url)
    ensures ParseHost(Some(UriInput(url)), uriHost) == ParseHost(url, uriHost)
  {
  }

  /** A URL that differs from both scheme prefixes at one position has no scheme. */
  lemma NoSchemeAt(url: string, i: nat)
    requires i < |url| && i < |HTTP_PREFIX|
    requires !SameIgnoringCase(url[i], HTTP_PREFIX[i]) && !SameIgnoringCase(url[i], HTTPS_PREFIX[i])
    ensures !HasScheme(url)
  {
  }

  /** What the parser receives: a null URL becomes `http://null`, and an
      upper-case scheme is recognised. */
  lemma UriInputKeepsScheme()
    ensures UriInput(None) == "http://null"
    ensures UriInput(Some("HTTPS://a.b")) == "HTTPS://a.b"
  {
    var upper := "HTTPS://a.b";
    assert forall i :: 0 <= i < |HTTPS_PREFIX| ==> SameIgnoringCase(upper[i], HTTPS_PREFIX[i]);
  }

  /** Another scheme is kept behind `http://`. */
  lemma UriInputOtherScheme()
    ensures UriInput(Some("ftp://a.b")) == "http://ftp://a.b"
  {
    NoSchemeAt("ftp://a.b", 0);
  }

  /** A bare host whose name starts with `http` still gets the prefix. */
  lemma UriInputHostNamedHttp()
    ensures UriInput(Some("httpd.org")) == "http://httpd.org"
  {
    NoSchemeAt("httpd.org", 4);
  }
}
