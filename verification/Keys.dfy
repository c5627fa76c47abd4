/** Cache identities: domain-separated hash keys, selection identities and blob digests. */
module Keys {
  import opened Sorting
  import opened Text
  import opened Wrappers

  /** The functions the model leaves uninterpreted. */
  datatype Primitives = Primitives(
    sha256: seq<Byte> -> Digest,
    sha1: seq<Byte> -> seq<Byte>,
    portableKey: string -> string,
    isRepoPath: string -> bool)

  datatype KeyError = TooLong | Collision | Malformed

  // "hf-store-cache-key" and a zero byte
  const KEY_PREFIX: seq<Byte> :=
    [104, 102, 45, 115, 116, 111, 114, 101, 45, 99, 97, 99, 104, 101, 45, 107, 101, 121, 0]
  const KEY_FORMAT_VERSION: Byte := 1
  const SELECTION_DOMAIN: Byte := 4
  const MAX_COUNT: nat := 0x1_0000_0000
  const MAX_LENGTH: nat := 0x1_0000_0000_0000_0000

  // ----- the hash input of a key

  function Parts(components: seq<seq<Byte>>): seq<Byte> {
    if components == [] then []
    else BigEndian(|components[0]|, 8) + components[0] + Parts(components[1..])
  }

  function Preimage(domain: Byte, components: seq<seq<Byte>>): seq<Byte> {
    KEY_PREFIX + [KEY_FORMAT_VERSION, domain] + BigEndian(|components|, 4) + Parts(components)
  }

  predicate Encodable(components: seq<seq<Byte>>) {
    |components| < MAX_COUNT && forall k :: 0 <= k < |components| ==> |components[k]| < MAX_LENGTH
  }

  lemma Cancel(a: seq<Byte>, x: seq<Byte>, b: seq<Byte>, y: seq<Byte>)
    requires |a| == |b| && a + x == b + y
    ensures a == b && x == y
  {
    assert a == (a + x)[..|a|] && b == (b + y)[..|b|];
    assert x == (a + x)[|a|..] && y == (b + y)[|b|..];
  }

  lemma Associate(a: seq<Byte>, b: seq<Byte>, c: seq<Byte>)
    ensures a + b + c == a + (b + c)
  {
  }

  lemma Widths()
    ensures Pow256(4) == MAX_COUNT && Pow256(8) == MAX_LENGTH
  {
    assert Pow256(2) == 0x1_0000;
    assert Pow256(4) == 0x1_0000_0000;
    assert Pow256(6) == 0x1_0000_0000_0000;
  }

  lemma {:induction false} PartsInjective(s: seq<seq<Byte>>, t: seq<seq<Byte>>)
    requires Encodable(s) && Encodable(t) && |s| == |t| && Parts(s) == Parts(t)
    ensures s == t
  {
    if s != [] {
      Widths();
      Associate(BigEndian(|s[0]|, 8), s[0], Parts(s[1..]));
      Associate(BigEndian(|t[0]|, 8), t[0], Parts(t[1..]));
      Cancel(BigEndian(|s[0]|, 8), s[0] + Parts(s[1..]), BigEndian(|t[0]|, 8), t[0] + Parts(t[1..]));
      BigEndianInjective(|s[0]|, |t[0]|, 8);
      Cancel(s[0], Parts(s[1..]), t[0], Parts(t[1..]));
      PartsInjective(s[1..], t[1..]);
      assert s == [s[0]] + s[1..] && t == [t[0]] + t[1..];
    }
  }

  /** No two (domain, component list) pairs feed the hash the same bytes. */
  lemma PreimageInjective(d: Byte, s: seq<seq<Byte>>, e: Byte, t: seq<seq<Byte>>)
    requires Encodable(s) && Encodable(t)
    ensures Preimage(d, s) == Preimage(e, t) <==> d == e && s == t
  {
    if Preimage(d, s) == Preimage(e, t) {
      Widths();
      var a, b := KEY_PREFIX + [KEY_FORMAT_VERSION, d], KEY_PREFIX + [KEY_FORMAT_VERSION, e];
      var x, y := BigEndian(|s|, 4), BigEndian(|t|, 4);
      Associate(a, x, Parts(s));
      Associate(b, y, Parts(t));
      Cancel(a, x + Parts(s), b, y + Parts(t));
      Cancel(x, Parts(s), y, Parts(t));
      BigEndianInjective(|s|, |t|, 4);
      PartsInjective(s, t);
      assert d == a[|a| - 1] && e == b[|b| - 1];
    }
  }

  lemma FeedTwo(fed: seq<Byte>, a: seq<Byte>, b: seq<Byte>, rest: seq<Byte>)
    ensures fed + (a + b + rest) == fed + a + b + rest
  {
  }

  /** Feeds the hasher piece by piece; only oversized input fails. */
  method DeriveKey(primitives: Primitives, domain: Byte, components: seq<seq<Byte>>)
    returns (r: Result<Digest, KeyError>)
    ensures r == if Encodable(components) then Success(primitives.sha256(Preimage(domain, components)))
                 else Failure(TooLong)
  {
    if |components| >= MAX_COUNT {
      return Failure(TooLong);
    }
    var fed := KEY_PREFIX;
    fed := fed + [KEY_FORMAT_VERSION, domain];
    fed := fed + BigEndian(|components|, 4);
    ghost var goal := Preimage(domain, components);
    assert components[0..] == components;
    for k := 0 to |components|
      invariant forall i :: 0 <= i < k ==> |components[i]| < MAX_LENGTH
      invariant fed + Parts(components[k..]) == goal
    {
      var component := components[k];
      if |component| >= MAX_LENGTH {
        return Failure(TooLong);
      }
      assert components[k..][1..] == components[k + 1..];
      FeedTwo(fed, BigEndian(|component|, 8), component, Parts(components[k + 1..]));
      fed := fed + BigEndian(|component|, 8);
      fed := fed + component;
    }
    assert fed + [] == fed;
    r := Success(primitives.sha256(fed));
  }

  // ----- selections that one directory tree can hold

  /** No two paths have one portable spelling, and none is an ancestor of another. */
  ghost predicate CollisionFree(portableKey: string -> string, paths: seq<string>) {
    && (forall p, q :: p in paths && q in paths && portableKey(p) == portableKey(q) ==> p == q)
    && (forall p, q :: p in paths && q in paths ==> !(portableKey(p) + "/" <= portableKey(q)))
  }

  predicate KeyLeq(a: (string, string), b: (string, string)) {
    Leq(a.0, b.0)
  }

  lemma KeyLeqIsOrder()
    ensures TotalPreorder(KeyLeq)
  {
    LeqIsOrder();
  }

  /** Sorted by key, equal keys are neighbours, so checking neighbours checks all pairs. */
  lemma {:induction false} NeighboursDecide(portable: seq<(string, string)>, i: nat, j: nat)
    requires Sorted(KeyLeq, portable) && i <= j < |portable| && portable[i].0 == portable[j].0
    requires forall k :: 0 < k < |portable| && portable[k - 1].0 == portable[k].0 ==>
               portable[k - 1].1 == portable[k].1
    ensures portable[i].1 == portable[j].1
    decreases j - i
  {
    if i < j {
      assert Leq(portable[i].0, portable[i + 1].0);
      if i + 1 < j {
        assert KeyLeq(portable[i + 1], portable[j]);
        LeqAntisymmetric(portable[i].0, portable[i + 1].0);
      }
      NeighboursDecide(portable, i + 1, j);
      assert portable[i + 1 - 1].1 == portable[i + 1].1;
    }
  }

  /** Whether some proper prefix of `key` that ends before a slash is among `keys`. */
  method HasAncestor(key: string, keys: set<string>) returns (found: bool)
    ensures found <==> exists k :: k in keys && k + "/" <= key
  {
    var separator := Find(key, '/', 0);
    forall k | k in keys && k + "/" <= key ensures separator.Some? && separator.value <= |k| {
      assert key[|k|] == '/';
      if separator.None? || separator.value > |k| { FindIsFirst(key, '/', 0, |k|); }
    }
    while separator.Some?
      invariant separator.Some? ==> separator.value < |key| && key[separator.value] == '/'
      invariant forall k :: k in keys && k + "/" <= key ==> separator.Some? && separator.value <= |k|
      decreases if separator.Some? then |key| - separator.value else -1
    {
      if key[..separator.value] in keys {
        assert key[..separator.value] + "/" == key[..separator.value + 1];
        return true;
      }
      ghost var passed := separator.value;
      separator := Find(key, '/', separator.value + 1);
      forall k | k in keys && k + "/" <= key ensures separator.Some? && separator.value <= |k| {
        assert key[|k|] == '/' && key[..|k|] == k;
        if |k| > passed && (separator.None? || separator.value > |k|) {
          FindIsFirst(key, '/', passed + 1, |k|);
        }
      }
    }
    return false;
  }

  ghost predicate KeysAgree(portable: seq<(string, string)>) {
    forall a, b :: a in portable && b in portable && a.0 == b.0 ==> a.1 == b.1
  }

  ghost predicate AncestorFree(portable: seq<(string, string)>) {
    forall a, b :: a in portable && b in portable ==> !(a.0 + "/" <= b.0)
  }

  method CheckKeysAgree(portable: seq<(string, string)>) returns (ok: bool)
    requires Sorted(KeyLeq, portable)
    ensures ok <==> KeysAgree(portable)
  {
    var index := 1;
    while index < |portable|
      invariant 1 <= index
      invariant forall k :: 0 < k < index && k < |portable| && portable[k - 1].0 == portable[k].0 ==>
                  portable[k - 1].1 == portable[k].1
    {
      var left, right := portable[index - 1], portable[index];
      if left.0 == right.0 && left.1 != right.1 {
        assert left in portable && right in portable;
        return false;
      }
      index := index + 1;
    }
    forall a, b | a in portable && b in portable && a.0 == b.0 ensures a.1 == b.1 {
      var i :| 0 <= i < |portable| && portable[i] == a;
      var j :| 0 <= j < |portable| && portable[j] == b;
      if i <= j { NeighboursDecide(portable, i, j); } else { NeighboursDecide(portable, j, i); }
    }
    return true;
  }

  method CheckAncestorFree(portable: seq<(string, string)>) returns (ok: bool)
    ensures ok <==> AncestorFree(portable)
  {
    var keys := set pair | pair in portable :: pair.0;
    for index := 0 to |portable|
      invariant forall k, a :: 0 <= k < index && a in portable ==> !(a.0 + "/" <= portable[k].0)
    {
      var found := HasAncestor(portable[index].0, keys);
      if found {
        var k :| k in keys && k + "/" <= portable[index].0;
        ghost var pair :| pair in portable && pair.0 == k;
        assert portable[index] in portable && pair.0 + "/" <= portable[index].0;
        return false;
      }
      forall a | a in portable ensures !(a.0 + "/" <= portable[index].0) {
        assert a.0 in keys;
      }
    }
    return true;
  }

  ghost predicate Pairs(portableKey: string -> string, paths: seq<string>, portable: seq<(string, string)>) {
    forall pair :: pair in portable <==> pair.1 in paths && pair.0 == portableKey(pair.1)
  }

  lemma PairsDecide(portableKey: string -> string, paths: seq<string>, portable: seq<(string, string)>)
    requires Pairs(portableKey, paths, portable)
    ensures KeysAgree(portable) && AncestorFree(portable) <==> CollisionFree(portableKey, paths)
  {
    forall p | p in paths ensures (portableKey(p), p) in portable {}
    if KeysAgree(portable) && AncestorFree(portable) {
      forall p, q | p in paths && q in paths
        ensures portableKey(p) == portableKey(q) ==> p == q
        ensures !(portableKey(p) + "/" <= portableKey(q))
      {
        var a, b := (portableKey(p), p), (portableKey(q), q);
        assert a in portable && b in portable;
      }
    }
  }

  /** Accepts a list exactly when one directory tree can hold all its paths. */
  method ValidateMaterializationCollisions(portableKey: string -> string, paths: seq<string>) returns (ok: bool)
    ensures ok <==> CollisionFree(portableKey, paths)
  {
    var pairs := seq(|paths|, i requires 0 <= i < |paths| => (portableKey(paths[i]), paths[i]));
    assert Pairs(portableKey, paths, pairs) by {
      forall p | p in paths ensures (portableKey(p), p) in pairs {
        var i :| 0 <= i < |paths| && paths[i] == p;
        assert pairs[i] == (portableKey(p), p);
      }
    }
    KeyLeqIsOrder();
    var portable := SortUnstable(KeyLeq, pairs);
    SameElements(portable, pairs);
    PairsDecide(portableKey, paths, portable);
    ok := CheckKeysAgree(portable);
    if ok {
      ok := CheckAncestorFree(portable);
    }
  }

  // ----- selection identities

  function Utf8All(paths: seq<string>): (r: seq<seq<Byte>>)
    ensures |r| == |paths|
  {
    seq(|paths|, i requires 0 <= i < |paths| => Utf8(paths[i]))
  }

  function SelectionPreimage(paths: seq<string>): seq<Byte> {
    Preimage(SELECTION_DOMAIN, Utf8All(Canonical(paths)))
  }

  ghost function DeriveSelection(primitives: Primitives, paths: seq<string>): Result<Digest, KeyError> {
    if !CollisionFree(primitives.portableKey, paths) then Failure(Collision)
    else if !Encodable(Utf8All(Canonical(paths))) then Failure(TooLong)
    else Success(primitives.sha256(SelectionPreimage(paths)))
  }

  method DeriveSelectionId(primitives: Primitives, paths: seq<string>) returns (r: Result<Digest, KeyError>)
    ensures r == DeriveSelection(primitives, paths)
  {
    var exact := Canonical(paths);
    CanonicalIsStrict(paths);
    var ok := ValidateMaterializationCollisions(primitives.portableKey, exact);
    assert CollisionFree(primitives.portableKey, exact) <==> CollisionFree(primitives.portableKey, paths);
    if !ok {
      return Failure(Collision);
    }
    r := DeriveKey(primitives, SELECTION_DOMAIN, Utf8All(exact));
  }

  lemma Utf8AllInjective(s: seq<string>, t: seq<string>)
    requires Utf8All(s) == Utf8All(t)
    ensures s == t
  {
    forall k | 0 <= k < |s| ensures s[k] == t[k] {
      assert Utf8All(s)[k] == Utf8(s[k]) && Utf8All(t)[k] == Utf8(t[k]);
      Utf8Injective(s[k], t[k]);
    }
  }

  /** What is hashed for a selection depends on the set of paths and on nothing else. */
  lemma PreimageIdentity(s: seq<string>, t: seq<string>)
    requires Encodable(Utf8All(Canonical(s))) && Encodable(Utf8All(Canonical(t)))
    ensures SelectionPreimage(s) == SelectionPreimage(t) <==> forall x :: x in s <==> x in t
  {
    CanonicalDependsOnSet(s, t);
    var a, b := Utf8All(Canonical(s)), Utf8All(Canonical(t));
    PreimageInjective(SELECTION_DOMAIN, a, SELECTION_DOMAIN, b);
    if a == b {
      Utf8AllInjective(Canonical(s), Canonical(t));
    }
  }

  /** The identity sees the set of paths and nothing else: equal sets have equal
      identities, two identities are equal only if the hash does not tell the two sets'
      bytes apart, and those bytes are equal only for equal sets. */
  lemma SelectionIdentity(primitives: Primitives, s: seq<string>, t: seq<string>)
    ensures (forall x :: x in s <==> x in t) ==> DeriveSelection(primitives, s) == DeriveSelection(primitives, t)
    ensures DeriveSelection(primitives, s).Success? && DeriveSelection(primitives, t).Success? ==>
              && (DeriveSelection(primitives, s) == DeriveSelection(primitives, t) <==>
                    primitives.sha256(SelectionPreimage(s)) == primitives.sha256(SelectionPreimage(t)))
              && (SelectionPreimage(s) == SelectionPreimage(t) <==> forall x :: x in s <==> x in t)
  {
    CanonicalDependsOnSet(s, t);
    if DeriveSelection(primitives, s).Success? && DeriveSelection(primitives, t).Success? {
      PreimageIdentity(s, t);
    }
  }

  /** Different selections can have different identities: some hash gives them those. */
  lemma SelectionsCanDiffer(primitives: Primitives, s: seq<string>, t: seq<string>) returns (other: Primitives)
    requires DeriveSelection(primitives, s).Success? && DeriveSelection(primitives, t).Success?
    requires !forall x :: x in s <==> x in t
    ensures other == primitives.(sha256 := other.sha256)
    ensures DeriveSelection(other, s).Success? && DeriveSelection(other, t).Success?
    ensures DeriveSelection(other, s) != DeriveSelection(other, t)
  {
    var zeros: Digest, ones: Digest := seq(32, _ => 0), seq(32, _ => 1);
    var bytes := SelectionPreimage(s);
    other := primitives.(sha256 := data => if data == bytes then zeros else ones);
    assert zeros[0] != ones[0];
    PreimageIdentity(s, t);
    SelectionIdentity(other, s, t);
  }

  /** Every key begins with the name of its format and a zero byte. */
  lemma KeyPrefixSpelled()
    ensures |KEY_PREFIX| == |"hf-store-cache-key"| + 1 && KEY_PREFIX[|KEY_PREFIX| - 1] == 0
    ensures forall k :: 0 <= k < |KEY_PREFIX| - 1 ==> KEY_PREFIX[k] == "hf-store-cache-key"[k] as int
  {
  }

  lemma OnePart(component: seq<Byte>)
    ensures Parts([component]) == BigEndian(|component|, 8) + component
  {
    assert [component][1..] == [];
  }

  /** The bytes hashed for one path, as they are. */
  lemma OnePathPreimage(path: string)
    ensures SelectionPreimage([path]) ==
            KEY_PREFIX + [1, 4] + [0, 0, 0, 1] + (BigEndian(|Utf8(path)|, 8) + Utf8(path))
  {
    OneCanonical(path);
    OnePart(Utf8(path));
    assert Utf8All([path]) == [Utf8(path)];
    OneInFour();
  }

  lemma OneInFour()
    ensures BigEndian(1, 4) == [0, 0, 0, 1]
  {
    assert BigEndian(0, 3) == [0, 0, 0];
  }

  lemma OneCanonical(path: string)
    ensures Canonical([path]) == [path]
  {
    CanonicalIsStrict([path]);
    assert [path][0] == path;
    StrictUnique(Canonical([path]), [path]);
  }

  // ----- blob digests

  /** The one digest a text displays, if any. */
  ghost function ParsedDigest(value: string): Result<Digest, KeyError> {
    if exists d: Digest :: Hex(d) == value then
      var d: Digest :| Hex(d) == value;
      Success(d)
    else Failure(Malformed)
  }

  lemma {:induction false} HexByDigits(value: string, bytes: seq<Byte>)
    requires |value| == 2 * |bytes|
    requires forall k :: 0 <= k < |bytes| ==>
               value[2 * k] == HexDigit(bytes[k] / 16) && value[2 * k + 1] == HexDigit(bytes[k] % 16)
    ensures value == Hex(bytes)
  {
    if bytes != [] {
      forall k | 0 <= k < |bytes| - 1
        ensures value[2..][2 * k] == HexDigit(bytes[1..][k] / 16)
        ensures value[2..][2 * k + 1] == HexDigit(bytes[1..][k] % 16)
      {
        assert value[2 * (k + 1)] == HexDigit(bytes[k + 1] / 16);
      }
      HexByDigits(value[2..], bytes[1..]);
      assert value[2 * 0] == HexDigit(bytes[0] / 16) && value[2 * 0 + 1] == HexDigit(bytes[0] % 16);
      assert value == [value[0], value[1]] + value[2..];
    }
  }

  lemma HexInjective(a: seq<Byte>, b: seq<Byte>)
    requires Hex(a) == Hex(b)
    ensures a == b
  {
    forall k | 0 <= k < |a| ensures a[k] == b[k] {
      HexAt(a, k);
      HexAt(b, k);
      NibbleInverse(Hex(a)[2 * k], a[k] / 16);
      NibbleInverse(Hex(a)[2 * k], b[k] / 16);
      NibbleInverse(Hex(a)[2 * k + 1], a[k] % 16);
      NibbleInverse(Hex(a)[2 * k + 1], b[k] % 16);
    }
  }

  /** Displaying and parsing are inverse to each other. */
  lemma ParsedIsInverse(d: Digest)
    ensures ParsedDigest(Hex(d)) == Success(d)
  {
    HexInjective(d, ParsedDigest(Hex(d)).value);
  }

  function DecodePair(first: char, second: char): Option<Byte> {
    var high :- LowerHexNibble(first);
    var low :- LowerHexNibble(second);
    Some(high * 16 + low)
  }

  lemma PairInverse(first: char, second: char, b: Byte)
    ensures DecodePair(first, second) == Some(b) <==> first == HexDigit(b / 16) && second == HexDigit(b % 16)
  {
    NibbleInverse(first, b / 16);
    NibbleInverse(second, b % 16);
    var high, low := LowerHexNibble(first), LowerHexNibble(second);
    if high.Some? && low.Some? {
      Halves(b, high.value, low.value);
    }
  }

  lemma Halves(b: int, high: int, low: int)
    requires 0 <= low < 16
    ensures b == high * 16 + low <==> high == b / 16 && low == b % 16
  {
  }

  lemma NotHex(value: string, k: nat)
    requires |value| == 64 && k < 32 && DecodePair(value[2 * k], value[2 * k + 1]).None?
    ensures ParsedDigest(value) == Failure(Malformed)
  {
    forall d: Digest ensures Hex(d) != value {
      HexAt(d, k);
      PairInverse(Hex(d)[2 * k], Hex(d)[2 * k + 1], d[k]);
    }
  }

  /** Decodes two digits at a time into a fixed buffer of 32 bytes. */
  method ParseDigest(value: string) returns (r: Result<Digest, KeyError>)
    ensures r == ParsedDigest(value)
  {
    if |value| != 64 {
      return Failure(Malformed);
    }
    var decoded := new Byte[32](_ => 0);
    for index := 0 to 32
      invariant forall k :: 0 <= k < index ==> DecodePair(value[2 * k], value[2 * k + 1]) == Some(decoded[k])
    {
      var pair := DecodePair(value[2 * index], value[2 * index + 1]);
      if pair.None? {
        NotHex(value, index);
        return Failure(Malformed);
      }
      decoded[index] := pair.value;
    }
    DecodedIsParsed(value, decoded[..]);
    r := Success(decoded[..]);
  }

  lemma DecodedIsParsed(value: string, d: Digest)
    requires |value| == 64
    requires forall k :: 0 <= k < 32 ==> DecodePair(value[2 * k], value[2 * k + 1]) == Some(d[k])
    ensures ParsedDigest(value) == Success(d)
  {
    forall k | 0 <= k < 32 ensures value[2 * k] == HexDigit(d[k] / 16) && value[2 * k + 1] == HexDigit(d[k] % 16) {
      PairInverse(value[2 * k], value[2 * k + 1], d[k]);
    }
    HexByDigits(value, d);
    ParsedIsInverse(d);
  }
}
