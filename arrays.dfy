/** The free helpers `array_value` and `array_test` (wells-fargo.class.php:584-623): reading
    a value out of nested arrays along a bracketed key path such as `'[faults][faults]'`. */
module Arrays {
  import opened Php

  predicate IsBracket(c: char)
  {
    c == '[' || c == ']'
  }

  function TrimLeft(s: string): (r: string)
    ensures |r| <= |s| && r == s[|s| - |r|..]
    ensures |r| > 0 ==> !IsBracket(r[0])
  {
    if |s| > 0 && IsBracket(s[0]) then TrimLeft(s[1..]) else s
  }

  function TrimRight(s: string): (r: string)
    ensures |r| <= |s| && r == s[..|r|]
    ensures |r| > 0 ==> !IsBracket(r[|r| - 1])
  {
    if |s| > 0 && IsBracket(s[|s| - 1]) then TrimRight(s[..|s| - 1]) else s
  }

  /** `trim($keys, '[]')`: brackets are removed from both ends, nothing else. */
  function TrimBrackets(s: string): (r: string)
    ensures |r| > 0 ==> !IsBracket(r[0]) && !IsBracket(r[|r| - 1])
  {
    var l := TrimLeft(s);
    var r := TrimRight(l);
    assert |r| > 0 ==> r[0] == l[0];
    r
  }

  /** `explode('][', $s)`: the pieces between the separators, which always include at least one. */
  function Explode(s: string): (r: seq<string>)
    ensures |r| >= 1
    decreases |s|
  {
    if |s| < 2 then [s]
    else if s[0] == ']' && s[1] == '[' then [""] + Explode(s[2..])
    else
      var rest := Explode(s[1..]);
      [[s[0]] + rest[0]] + rest[1..]
  }

  /** `implode('][', $parts)`, the inverse of `explode`. */
  function Join(parts: seq<string>): string
    requires |parts| >= 1
  {
    if |parts| == 1 then parts[0] else parts[0] + "][" + Join(parts[1..])
  }

  /** The keys `array_value` walks for a path string. */
  function Path(keys: string): seq<string>
  {
    Explode(TrimBrackets(keys))
  }

  /** `array_test`: whether the value is an array (the warning it raises is not modelled). */
  predicate ArrayTest(v: Node)
  {
    v.Arr?
  }

  /** The loop of `array_value`: descend one key at a time; a missing key gives the default,
      and `array_key_exists` on something that is not an array is a TypeError in PHP 8. */
  function Walk(keys: seq<string>, value: Node, default: Node): Php<Node>
  {
    if keys == [] then Ok(value)
    else match value
      case Arr(m) => if keys[0] in m then Walk(keys[1..], m[keys[0]], default) else Ok(default)
      case _ => Fatal("array_key_exists(): Argument #2 ($array) must be of type array")
  }

  /** `array_value($keys, $array, $default)` on an already-split path. */
  function ValueAt(keys: seq<string>, root: Node, default: Node): Php<Node>
  {
    if !ArrayTest(root) then Ok(default) else Walk(keys, root, default)
  }

  /** The node reached by following `keys` through arrays only, if every key is present. */
  function Reach(keys: seq<string>, value: Node): Option<Node>
  {
    if keys == [] then Some(value)
    else if value.Arr? && keys[0] in value.m then Reach(keys[1..], value.m[keys[0]])
    else None
  }

  /** `array_value`, with the loop that reassigns `$value` as it descends. */
  method ArrayValue(keys: string, root: Node, default: Node) returns (r: Php<Node>)
    ensures r == ValueAt(Path(keys), root, default)
  {
    if !ArrayTest(root) {
      return Ok(default);
    }
    var ks := Explode(TrimBrackets(keys));
    var value := root;
    var i := 0;
    while i < |ks|
      invariant 0 <= i <= |ks|
      invariant Walk(ks[i..], value, default) == Walk(ks, root, default)
    {
      assert ks[i..][1..] == ks[i + 1..];
      if !value.Arr? {
        return Fatal("array_key_exists(): Argument #2 ($array) must be of type array");
      }
      if ks[i] in value.m {
        value := value.m[ks[i]];
      } else {
        return Ok(default);
      }
      i := i + 1;
    }
    return Ok(value);
  }

  // ---------------------------------------------------------------------------------------
  // Properties of the path helpers

  /** Joining the pieces of `explode` gives back the string. */
  lemma {:induction false} ExplodeJoin(s: string)
    ensures Join(Explode(s)) == s
    decreases |s|
  {
    if |s| < 2 {
    } else if s[0] == ']' && s[1] == '[' {
      ExplodeJoin(s[2..]);
      assert s == "][" + s[2..];
    } else {
      var rest := Explode(s[1..]);
      ExplodeJoin(s[1..]);
      if |rest| == 1 {
        assert s == [s[0]] + s[1..];
      } else {
        assert Join(rest) == rest[0] + "][" + Join(rest[1..]);
        assert ([[s[0]] + rest[0]] + rest[1..])[1..] == rest[1..];
        assert s == [s[0]] + s[1..];
      }
    }
  }

  /** A string with no ']' is a single piece. */
  lemma {:induction false} ExplodeSingle(s: string)
    requires ']' !in s
    ensures Explode(s) == [s]
    decreases |s|
  {
    if |s| >= 2 {
      assert s == [s[0]] + s[1..];
      ExplodeSingle(s[1..]);
      assert [s[0]] + s[1..] == s;
    }
  }

  /** A piece with no ']' followed by the separator is split off in front. */
  lemma {:induction false} ExplodeCons(a: string, b: string)
    requires ']' !in a
    ensures Explode(a + "][" + b) == [a] + Explode(b)
    decreases |a|
  {
    if a == [] {
      assert a + "][" + b == "][" + b;
      assert ("][" + b)[2..] == b;
    } else {
      var s := a + "][" + b;
      assert s[1..] == a[1..] + "][" + b;
      assert a == [a[0]] + a[1..];
      ExplodeCons(a[1..], b);
      assert [a[0]] + a[1..] == a;
    }
  }

  /** A path string without brackets at its ends is left as it is. */
  lemma TrimPlain(s: string)
    requires |s| > 0 && !IsBracket(s[0]) && !IsBracket(s[|s| - 1])
    ensures TrimBrackets(s) == s
  {
  }

  /** A bracketed path loses exactly its outer brackets. */
  lemma TrimWrapped(x: string)
    requires |x| > 0 && !IsBracket(x[0]) && !IsBracket(x[|x| - 1])
    ensures TrimBrackets("[" + x + "]") == x
  {
    var y := x + "]";
    TrimLeftOne("[" + x + "]", y);
    TrimRightOne(y, x);
  }

  lemma TrimLeftOne(w: string, y: string)
    requires |y| > 0 && !IsBracket(y[0]) && w == "[" + y
    ensures TrimLeft(w) == y
  {
    assert w[1..] == y;
  }

  lemma TrimRightOne(y: string, x: string)
    requires |x| > 0 && !IsBracket(x[|x| - 1]) && y == x + "]"
    ensures TrimRight(y) == x
  {
    assert y[..|y| - 1] == x;
  }

  /** A key without brackets is a path of one key. */
  lemma PlainPath(k: string)
    requires |k| > 0 && !IsBracket(k[0]) && !IsBracket(k[|k| - 1]) && ']' !in k
    ensures Path(k) == [k]
  {
    TrimPlain(k);
    ExplodeSingle(k);
  }

  /** `[a][b]` is the path of the two keys a and b. */
  lemma BracketedPath2(a: string, b: string)
    requires |a| > 0 && !IsBracket(a[0]) && ']' !in a
    requires |b| > 0 && !IsBracket(b[|b| - 1]) && ']' !in b
    ensures Path("[" + a + "][" + b + "]") == [a, b]
  {
    var t := a + "][" + b;
    assert "[" + a + "][" + b + "]" == "[" + t + "]";
    assert t[0] == a[0] && t[|t| - 1] == b[|b| - 1];
    TrimWrapped(t);
    ExplodeCons(a, b);
    ExplodeSingle(b);
  }

  /** `[a][b][c]` is the path of the three keys a, b and c. */
  lemma BracketedPath3(a: string, b: string, c: string)
    requires |a| > 0 && !IsBracket(a[0]) && ']' !in a && ']' !in b
    requires |c| > 0 && !IsBracket(c[|c| - 1]) && ']' !in c
    ensures Path("[" + a + "][" + b + "][" + c + "]") == [a, b, c]
  {
    var u := b + "][" + c;
    var t := a + "][" + u;
    assert "[" + a + "][" + b + "][" + c + "]" == "[" + t + "]";
    assert t[0] == a[0] && t[|t| - 1] == c[|c| - 1];
    TrimWrapped(t);
    ExplodeCons(a, u);
    ExplodeCons(b, c);
    ExplodeSingle(c);
  }

  /** The path string of the payload inside a SOAP response,
      `'[soapenvBody][ns1submitTransactionResponse][submitTransactionReturn]'`. */
  const ReturnPathString: string :=
    "[" + "soapenvBody" + "][" + "ns1submitTransactionResponse" + "][" + "submitTransactionReturn" + "]"

  /** The paths the response handling uses split into their keys. */
  lemma ReturnPath()
    ensures Path(ReturnPathString) == ["soapenvBody", "ns1submitTransactionResponse", "submitTransactionReturn"]
  {
    BracketedPath3("soapenvBody", "ns1submitTransactionResponse", "submitTransactionReturn");
  }

  lemma FaultsPath()
    ensures Path("[faults][faults]") == ["faults", "faults"]
  {
    assert "[" + "faults" + "][" + "faults" + "]" == "[faults][faults]";
    BracketedPath2("faults", "faults");
  }

  lemma StatusPath()
    ensures Path("transactionStatus") == ["transactionStatus"]
  {
    PlainPath("transactionStatus");
  }

  lemma MessagePath()
    ensures Path("transactionMessage") == ["transactionMessage"]
  {
    PlainPath("transactionMessage");
  }

  // ---------------------------------------------------------------------------------------
  // Properties of `array_value`

  /** A non-array gives the default, whatever the path. */
  lemma ValueAtNonArray(keys: seq<string>, root: Node, default: Node)
    requires !root.Arr?
    ensures ValueAt(keys, root, default) == Ok(default)
  {
  }

  /** When every key of the path is present, the value found there is returned. */
  lemma {:induction false} WalkFound(keys: seq<string>, value: Node, default: Node)
    requires Reach(keys, value).Some?
    ensures Walk(keys, value, default) == Ok(Reach(keys, value).value)
  {
    if keys != [] {
      WalkFound(keys[1..], value.m[keys[0]], default);
    }
  }

  lemma ValueAtFound(keys: seq<string>, root: Node, default: Node)
    requires root.Arr? && Reach(keys, root).Some?
    ensures ValueAt(keys, root, default) == Ok(Reach(keys, root).value)
  {
    WalkFound(keys, root, default);
  }

  /** A key missing at any depth gives the default. */
  lemma {:induction false} WalkMissing(keys: seq<string>, value: Node, default: Node, j: nat)
    requires j < |keys|
    requires Reach(keys[..j], value).Some? && Reach(keys[..j], value).value.Arr?
    requires keys[j] !in Reach(keys[..j], value).value.m
    ensures Walk(keys, value, default) == Ok(default)
  {
    if j > 0 {
      assert keys[..j][1..] == keys[1..][..j - 1];
      WalkMissing(keys[1..], value.m[keys[0]], default, j - 1);
    }
  }

  lemma ValueAtMissing(keys: seq<string>, root: Node, default: Node, j: nat)
    requires root.Arr? && j < |keys|
    requires Reach(keys[..j], root).Some? && Reach(keys[..j], root).value.Arr?
    requires keys[j] !in Reach(keys[..j], root).value.m
    ensures ValueAt(keys, root, default) == Ok(default)
  {
    WalkMissing(keys, root, default, j);
  }

  /** The walk aborts only where a present key leads to something that is not an array
      and the path goes on. */
  lemma {:induction false} WalkFatal(keys: seq<string>, value: Node, default: Node)
    requires Walk(keys, value, default).Fatal?
    ensures exists j :: 0 <= j < |keys| && Reach(keys[..j], value).Some? && !Reach(keys[..j], value).value.Arr?
  {
    assert keys != [];
    if value.Arr? {
      var next := value.m[keys[0]];
      WalkFatal(keys[1..], next, default);
      var j :| 0 <= j < |keys| - 1 && Reach(keys[1..][..j], next).Some? && !Reach(keys[1..][..j], next).value.Arr?;
      ReachStep(keys, value, j);
    } else {
      assert keys[..0] == [];
    }
  }

  /** One step down a present key. */
  lemma ReachStep(keys: seq<string>, value: Node, j: nat)
    requires j < |keys| && value.Arr? && keys[0] in value.m
    ensures Reach(keys[..j + 1], value) == Reach(keys[1..][..j], value.m[keys[0]])
  {
    assert keys[..j + 1][1..] == keys[1..][..j];
    assert keys[..j + 1][0] == keys[0];
  }

  lemma ValueAtFatal(keys: seq<string>, root: Node, default: Node)
    requires ValueAt(keys, root, default).Fatal?
    ensures exists j :: 0 < j < |keys| && Reach(keys[..j], root).Some? && !Reach(keys[..j], root).value.Arr?
  {
    WalkFatal(keys, root, default);
    var j :| 0 <= j < |keys| && Reach(keys[..j], root).Some? && !Reach(keys[..j], root).value.Arr?;
    assert keys[..0] == [];
    assert j > 0;
  }
}
