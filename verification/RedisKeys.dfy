/** How an identity becomes a Redis key, its cluster hash tag, and the SCAN pattern of a management cluster. */
module RedisKeys {
  import opened Desire
  import opened MemoryStore

  const KEY_PREFIX: Str := "desire/{"

  // ------------------------------------------------------------ percent-encoding

  predicate IsAlnum(c: Byte) { 'a' <= c <= 'z' || 'A' <= c <= 'Z' || '0' <= c <= '9' }

  /** The bytes a path segment must escape: everything but letters, digits and -_.~$&+:=@ */
  predicate ShouldEscape(c: Byte) {
    !(IsAlnum(c) || c == '-' || c == '_' || c == '.' || c == '~' ||
      c == '$' || c == '&' || c == '+' || c == ':' || c == '=' || c == '@')
  }

  /** An upper-case hexadecimal digit. */
  function Hex(n: nat): (c: Byte)
    requires n < 16
    ensures IsAlnum(c) && UnHex(c) == n
  {
    if n < 10 then ('0' as int + n) as char else ('A' as int + (n - 10)) as char
  }

  function UnHex(c: Byte): nat {
    if '0' <= c <= '9' then c as int - '0' as int
    else if 'A' <= c <= 'F' then c as int - 'A' as int + 10
    else 0
  }

  function EscapeByte(c: Byte): Str {
    if ShouldEscape(c) then ['%', Hex(c as int / 16), Hex(c as int % 16)] else [c]
  }

  function PathEscape(s: Str): Str {
    if s == [] then [] else EscapeByte(s[0]) + PathEscape(s[1..])
  }

  function PathUnescape(s: Str): Str {
    if s == [] then []
    else if s[0] == '%' && |s| >= 3 then
      [((16 * UnHex(s[1]) + UnHex(s[2])) % 256) as char] + PathUnescape(s[3..])
    else [s[0]] + PathUnescape(s[1..])
  }

  /** Escaping loses nothing. */
  lemma {:induction false} UnescapeEscape(s: Str)
    ensures PathUnescape(PathEscape(s)) == s
  {
    if s != [] {
      UnescapeEscape(s[1..]);
      var e, rest := EscapeByte(s[0]), PathEscape(s[1..]);
      assert (e + rest)[|e|..] == rest;
      assert s == [s[0]] + s[1..];
      if ShouldEscape(s[0]) {
        assert 16 * (s[0] as int / 16) + s[0] as int % 16 == s[0] as int;
      }
    }
  }

  lemma EscapeInjective(a: Str, b: Str)
    requires PathEscape(a) == PathEscape(b)
    ensures a == b
  {
    UnescapeEscape(a);
    UnescapeEscape(b);
  }

  predicate Safe(c: Byte) { !ShouldEscape(c) || c == '%' }

  /** An escaped string has no separator, brace or glob metacharacter. */
  lemma {:induction false} EscapeSafe(s: Str)
    ensures forall c :: c in PathEscape(s) ==> Safe(c)
    ensures forall c :: c in PathEscape(s) ==> c !in "/{}*?[]^\\"
  {
    if s != [] {
      EscapeSafe(s[1..]);
    }
  }

  // ---------------------------------------------------------------------- keys

  function IndexOf(s: Str, c: Byte): (r: Option<nat>)
    ensures r.None? <==> c !in s
    ensures r.Some? ==> r.value < |s| && s[r.value] == c && c !in s[..r.value]
  {
    if s == [] then None
    else if s[0] == c then Some(0)
    else
      var r := IndexOf(s[1..], c);
      if r.None? then None else
        assert s[..r.value + 1] == [s[0]] + s[1..][..r.value];
        Some(r.value + 1)
  }

  lemma {:induction false} IndexIs(s: Str, c: Byte, n: nat)
    requires n < |s| && s[n] == c && c !in s[..n]
    ensures IndexOf(s, c) == Some(n)
  {
    if n > 0 {
      assert s[0] == s[..n][0];
      assert s[..n] == [s[0]] + s[1..][..n - 1];
      IndexIs(s[1..], c, n - 1);
    }
  }

  function Join(field: Str, rest: Str): Str { PathEscape(field) + "/" + rest }

  /** The five coordinates, escaped and joined by slashes. */
  function TagText(t: Target): Str {
    Join(t.managementCluster, AfterCluster(t))
  }

  function AfterCluster(t: Target): Str {
    Join(t.group, Join(t.resource, Join(t.namespace, PathEscape(t.name))))
  }

  function RedisKey(id: Identity): Str {
    KEY_PREFIX + (TagText(id.target) + "}/" + Wire(id.ty))
  }

  /** A separator that occurs in neither left part splits both strings at the same place. */
  lemma SplitUnique(a: Str, x: Str, b: Str, y: Str, sep: Byte)
    requires sep !in a && sep !in b
    requires a + [sep] + x == b + [sep] + y
    ensures a == b && x == y
  {
    var s := a + [sep] + x;
    assert s[..|a|] == a && s[|a|] == sep && s[|a| + 1..] == x;
    IndexIs(s, sep, |a|);
    var u := b + [sep] + y;
    assert u[..|b|] == b && u[|b|] == sep && u[|b| + 1..] == y;
    IndexIs(u, sep, |b|);
  }

  lemma JoinSplits(a: Str, x: Str, b: Str, y: Str)
    requires Join(a, x) == Join(b, y)
    ensures a == b && x == y
  {
    EscapeSafe(a);
    EscapeSafe(b);
    SplitUnique(PathEscape(a), x, PathEscape(b), y, '/');
    EscapeInjective(a, b);
  }

  lemma TagInjective(t: Target, u: Target)
    requires TagText(t) == TagText(u)
    ensures t == u
  {
    JoinSplits(t.managementCluster, AfterCluster(t), u.managementCluster, AfterCluster(u));
    JoinSplits(t.group, Join(t.resource, Join(t.namespace, PathEscape(t.name))),
               u.group, Join(u.resource, Join(u.namespace, PathEscape(u.name))));
    JoinSplits(t.resource, Join(t.namespace, PathEscape(t.name)), u.resource, Join(u.namespace, PathEscape(u.name)));
    JoinSplits(t.namespace, PathEscape(t.name), u.namespace, PathEscape(u.name));
    EscapeInjective(t.name, u.name);
  }

  ghost predicate NoBrace(s: Str) { '{' !in s && '}' !in s }

  lemma JoinHasNoBrace(field: Str, rest: Str)
    requires NoBrace(rest)
    ensures NoBrace(Join(field, rest))
  {
    EscapeSafe(field);
  }

  lemma TagHasNoBrace(t: Target)
    ensures NoBrace(TagText(t))
  {
    EscapeSafe(t.name);
    JoinHasNoBrace(t.namespace, PathEscape(t.name));
    JoinHasNoBrace(t.resource, Join(t.namespace, PathEscape(t.name)));
    JoinHasNoBrace(t.group, Join(t.resource, Join(t.namespace, PathEscape(t.name))));
    JoinHasNoBrace(t.managementCluster, AfterCluster(t));
  }

  /** A key is the prefix, the tag, a closing brace and the type. */
  lemma KeyParts(id: Identity)
    ensures |RedisKey(id)| > 8 && RedisKey(id)[..7] == "desire/" && RedisKey(id)[7] == '{'
    ensures RedisKey(id)[8..] == TagText(id.target) + ['}'] + ("/" + Wire(id.ty))
  {
    assert RedisKey(id)[..8] == KEY_PREFIX;
    assert RedisKey(id)[..7] == KEY_PREFIX[..7];
    assert RedisKey(id)[8..] == TagText(id.target) + "}/" + Wire(id.ty);
  }

  lemma WireInjective(t: DesireType, u: DesireType)
    requires Wire(t) == Wire(u)
    ensures t == u
  {
    assert |Wire(TypeApply)| == 5 && |Wire(TypeDelete)| == 6 && |Wire(TypeRead)| == 4;
  }

  /** Distinct identities have distinct keys, whatever bytes their fields hold. */
  lemma RedisKeyInjective(a: Identity, b: Identity)
    requires RedisKey(a) == RedisKey(b)
    ensures a == b
  {
    var x, y := "/" + Wire(a.ty), "/" + Wire(b.ty);
    TagHasNoBrace(a.target);
    TagHasNoBrace(b.target);
    KeyParts(a);
    KeyParts(b);
    SplitUnique(TagText(a.target), x, TagText(b.target), y, '}');
    TagInjective(a.target, b.target);
    assert Wire(a.ty) == x[1..] && Wire(b.ty) == y[1..];
    WireInjective(a.ty, b.ty);
  }

  // ------------------------------------------------------------------- hash tags

  /** Redis Cluster hashes the text between the first { and the next }, if there is any, and the whole key otherwise. */
  function HashTag(key: Str): Str {
    var open := IndexOf(key, '{');
    if open.None? then key
    else
      var inner := key[open.value + 1..];
      var close := IndexOf(inner, '}');
      if close.None? || close.value == 0 then key else inner[..close.value]
  }

  lemma HashTagIsTarget(id: Identity)
    ensures HashTag(RedisKey(id)) == TagText(id.target)
  {
    var key, tag := RedisKey(id), TagText(id.target);
    KeyParts(id);
    assert '{' !in "desire/";
    IndexIs(key, '{', 7);
    TagHasNoBrace(id.target);
    TagThenBrace(tag, "/" + Wire(id.ty));
    assert tag[|PathEscape(id.target.managementCluster)|] == '/';
  }

  lemma TagThenBrace(tag: Str, rest: Str)
    requires NoBrace(tag)
    ensures IndexOf(tag + ['}'] + rest, '}') == Some(|tag|) && (tag + ['}'] + rest)[..|tag|] == tag
  {
    var s := tag + ['}'] + rest;
    assert s[..|tag|] == tag && s[|tag|] == '}';
    IndexIs(s, '}', |tag|);
  }

  /** Two keys share a cluster slot's tag exactly when they name the same target. */
  lemma SameTagExactlySameTarget(a: Identity, b: Identity)
    ensures HashTag(RedisKey(a)) == HashTag(RedisKey(b)) <==> a.target == b.target
  {
    HashTagIsTarget(a);
    HashTagIsTarget(b);
    if TagText(a.target) == TagText(b.target) {
      TagInjective(a.target, b.target);
    }
  }

  // ------------------------------------------------------------------- SCAN MATCH

  predicate IsGlobMeta(c: Byte) { c == '\\' || c == '*' || c == '?' || c == '[' || c == ']' }

  function GlobEscapeByte(c: Byte): Str { if IsGlobMeta(c) then ['\\', c] else [c] }

  function GlobEscape(s: Str): Str {
    if s == [] then [] else GlobEscapeByte(s[0]) + GlobEscape(s[1..])
  }

  /** The rest of a bracket class, and whether `c` is one of its members. */
  function ClassEnd(p: Str, c: Byte, found: bool): (r: (bool, Str))
    ensures |r.1| <= |p|
    decreases |p|
  {
    if |p| >= 2 && p[0] == '\\' then ClassEnd(p[2..], c, found || p[1] == c)
    else if p == [] then (found, [])
    else if p[0] == ']' then (found, p[1..])
    else if |p| >= 3 && p[1] == '-' then
      ClassEnd(p[3..], c, found || p[0] <= c <= p[2] || p[2] <= c <= p[0])
    else ClassEnd(p[1..], c, found || p[0] == c)
  }

  /** Redis's glob matcher: * ? \ and bracket classes. */
  predicate GlobMatch(p: Str, s: Str)
    decreases |p| + |s|
  {
    if p == [] then s == []
    else if p[0] == '*' then GlobMatch(p[1..], s) || (s != [] && GlobMatch(p, s[1..]))
    else if s == [] then false
    else if p[0] == '?' then GlobMatch(p[1..], s[1..])
    else if p[0] == '[' then
      var negated := |p| >= 2 && p[1] == '^';
      var (found, rest) := ClassEnd(if negated then p[2..] else p[1..], s[0], false);
      found != negated && GlobMatch(rest, s[1..])
    else if p[0] == '\\' && |p| >= 2 then p[1] == s[0] && GlobMatch(p[2..], s[1..])
    else p[0] == s[0] && GlobMatch(p[1..], s[1..])
  }

  function ScanPattern(managementCluster: Str): Str {
    GlobEscape(KEY_PREFIX + PathEscape(managementCluster)) + "/" + "*"
  }

  lemma EscapedByteMatches(c: Byte, p: Str, s: Str)
    ensures GlobMatch(GlobEscapeByte(c) + p, s) <==> s != [] && s[0] == c && GlobMatch(p, s[1..])
  {
    var q := GlobEscapeByte(c) + p;
    if IsGlobMeta(c) {
      assert q[0] == '\\' && q[1] == c && q[2..] == p;
    } else {
      assert q[0] == c && q[1..] == p;
    }
  }

  lemma PrefixByByte(lit: Str, s: Str)
    requires lit != []
    ensures lit <= s <==> s != [] && s[0] == lit[0] && lit[1..] <= s[1..]
    ensures lit <= s ==> s[1..][|lit| - 1..] == s[|lit|..]
  {
    assert lit == [lit[0]] + lit[1..];
    if s != [] {
      assert s == [s[0]] + s[1..];
    }
  }

  /** An escaped string matches itself and nothing else, for every byte string. */
  lemma {:induction false} EscapedMatchesLiterally(lit: Str, rest: Str, s: Str)
    ensures GlobMatch(GlobEscape(lit) + rest, s) <==> lit <= s && GlobMatch(rest, s[|lit|..])
    decreases |lit|
  {
    if lit == [] {
      assert GlobEscape(lit) + rest == rest;
      assert s[0..] == s;
    } else {
      var tail := GlobEscape(lit[1..]) + rest;
      assert GlobEscape(lit) + rest == GlobEscapeByte(lit[0]) + tail;
      EscapedByteMatches(lit[0], tail, s);
      PrefixByByte(lit, s);
      if s != [] {
        EscapedMatchesLiterally(lit[1..], rest, s[1..]);
      }
    }
  }

  lemma {:induction false} StarMatchesAll(s: Str)
    ensures GlobMatch("*", s)
    decreases |s|
  {
    if s == [] {
      assert GlobMatch([], s);
    } else {
      StarMatchesAll(s[1..]);
    }
  }

  lemma PatternIsPrefix(managementCluster: Str, s: Str)
    ensures GlobMatch(ScanPattern(managementCluster), s) <==> KEY_PREFIX + PathEscape(managementCluster) + "/" <= s
  {
    var lit := KEY_PREFIX + PathEscape(managementCluster);
    assert ScanPattern(managementCluster) == GlobEscape(lit) + ("/" + "*");
    EscapedMatchesLiterally(lit, "/" + "*", s);
    if lit <= s {
      var rest := s[|lit|..];
      var p: Str := "/" + "*";
      assert p[1..] == "*";
      if rest != [] {
        StarMatchesAll(rest[1..]);
        assert GlobMatch(p, rest) <==> rest[0] == '/';
        assert lit + "/" <= s <==> rest[0] == '/';
      } else {
        assert !(lit + "/" <= s);
      }
    }
  }

  /** A key matches a cluster's scan pattern exactly when its identity is in that cluster. */
  lemma ScanMatchesExactlyTheCluster(managementCluster: Str, id: Identity)
    ensures GlobMatch(ScanPattern(managementCluster), RedisKey(id)) <==>
              id.target.managementCluster == managementCluster
  {
    var key, own := RedisKey(id), id.target.managementCluster;
    PatternIsPrefix(managementCluster, key);
    KeyAfterCluster(id);
    var rest := AfterCluster(id.target) + "}/" + Wire(id.ty);
    if KEY_PREFIX + PathEscape(managementCluster) + "/" <= key {
      PrefixSplits(managementCluster, key, own, rest);
    } else {
      assert KEY_PREFIX + PathEscape(own) + "/" <= KEY_PREFIX + Join(own, rest);
    }
  }

  lemma KeyAfterCluster(id: Identity)
    ensures RedisKey(id) == KEY_PREFIX + Join(id.target.managementCluster, AfterCluster(id.target) + "}/" + Wire(id.ty))
  {
  }

  lemma PrefixSplits(mc: Str, key: Str, own: Str, rest: Str)
    requires KEY_PREFIX + PathEscape(mc) + "/" <= key == KEY_PREFIX + Join(own, rest)
    ensures mc == own
  {
    var head := KEY_PREFIX + PathEscape(mc) + "/";
    var tail := key[|head|..];
    assert key == head + tail;
    assert key[|KEY_PREFIX|..] == Join(mc, tail);
    assert key[|KEY_PREFIX|..] == Join(own, rest);
    JoinSplits(mc, tail, own, rest);
  }

  // ------------------------------------------- the keyspace as Redis stores it

  lemma KeysDistinct()
    ensures forall a, b {:trigger RedisKey(a), RedisKey(b)} :: RedisKey(a) == RedisKey(b) ==> a == b
  {
    forall a, b | RedisKey(a) == RedisKey(b) ensures a == b {
      RedisKeyInjective(a, b);
    }
  }

  /** The string-keyed keyspace that holds a store. */
  ghost function Encode(items: Items): map<Str, Record> {
    KeysDistinct();
    map id | id in items :: RedisKey(id) := items[id]
  }

  lemma EncodeGet(items: Items, id: Identity)
    ensures RedisKey(id) in Encode(items) <==> id in items
    ensures id in items ==> Encode(items)[RedisKey(id)] == items[id]
  {
    KeysDistinct();
  }

  lemma EncodeSet(items: Items, id: Identity, rec: Record)
    ensures Encode(items[id := rec]) == Encode(items)[RedisKey(id) := rec]
  {
    KeysDistinct();
    var a, b := Encode(items[id := rec]), Encode(items)[RedisKey(id) := rec];
    forall k | k in a || k in b
      ensures k in a && k in b && a[k] == b[k]
    {
      if k != RedisKey(id) {
        var i :| i in items && k == RedisKey(i);
        EncodeGet(items, i);
        EncodeGet(items[id := rec], i);
      } else {
        EncodeGet(items[id := rec], id);
      }
    }
  }

  lemma EncodeDelAt(items: Items, id: Identity, i: Identity)
    ensures RedisKey(i) in Encode(items - {id}) <==> RedisKey(i) in Encode(items) - {RedisKey(id)}
    ensures RedisKey(i) in Encode(items - {id}) ==> Encode(items - {id})[RedisKey(i)] == Encode(items)[RedisKey(i)]
  {
    EncodeGet(items, i);
    EncodeGet(items - {id}, i);
    if RedisKey(i) == RedisKey(id) {
      RedisKeyInjective(i, id);
    }
  }

  lemma EncodeDel(items: Items, id: Identity)
    ensures Encode(items - {id}) == Encode(items) - {RedisKey(id)}
  {
    var a, b := Encode(items - {id}), Encode(items) - {RedisKey(id)};
    forall k | k in a || k in b
      ensures k in a && k in b && a[k] == b[k]
    {
      var i :| i in items && k == RedisKey(i);
      EncodeDelAt(items, id, i);
    }
  }

  /** GET, SET and DEL on string keys are lookup, update and removal by identity: no key aliases another. */
  lemma EncodeCommutes(items: Items, id: Identity, rec: Record)
    ensures RedisKey(id) in Encode(items) <==> id in items
    ensures id in items ==> Encode(items)[RedisKey(id)] == items[id]
    ensures Encode(items[id := rec]) == Encode(items)[RedisKey(id) := rec]
    ensures Encode(items - {id}) == Encode(items) - {RedisKey(id)}
  {
    EncodeGet(items, id);
    EncodeSet(items, id, rec);
    EncodeDel(items, id);
  }
}
