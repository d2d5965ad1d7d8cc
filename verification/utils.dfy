/** The server's generic helpers: the UUID shape check and the keyed map built from a slice. */
module Utils {
  import opened Strings
  import opened Seqs

  predicate IsHex(c: char) {
    ('0' <= c <= '9') || ('a' <= c <= 'f') || ('A' <= c <= 'F')
  }

  predicate AllHex(s: string) {
    forall i :: 0 <= i < |s| ==> IsHex(s[i])
  }

  /** What the UUID pattern demands of the character at index `i`: a hyphen at 8, 13, 18 and 23,
      the version nibble '1'..'5' at 14 (section 4.1.3 of RFC 4122), the variant nibble 8, 9, a, b
      (either case) at 19 (section 4.1.1 of RFC 4122), and a hex digit everywhere else. */
  predicate PositionOk(s: string, i: nat)
    requires i < |s|
  {
    if i == 8 || i == 13 || i == 18 || i == 23 then s[i] == '-'
    else if i == 14 then '1' <= s[i] <= '5'
    else if i == 19 then s[i] in "89abAB"
    else IsHex(s[i])
  }

  /** The anchored pattern `^[a-fA-F0-9]{8}-[a-fA-F0-9]{4}-[1-5][a-fA-F0-9]{3}-[89abAB][a-fA-F0-9]{3}-[a-fA-F0-9]{12}$`,
      group by group. */
  function IsValidUUID(s: string): (ok: bool)
    ensures ok <==> |s| == 36 && forall i :: 0 <= i < 36 ==> PositionOk(s, i)
  {
    var ok := && |s| == 36
              && AllHex(s[0..8]) && s[8] == '-'
              && AllHex(s[9..13]) && s[13] == '-'
              && '1' <= s[14] <= '5' && AllHex(s[15..18]) && s[18] == '-'
              && s[19] in "89abAB" && AllHex(s[20..23]) && s[23] == '-'
              && AllHex(s[24..36]);
    assert ok ==> forall i :: 0 <= i < 36 ==> PositionOk(s, i) by {
      if ok {
        forall i | 0 <= i < 36 ensures PositionOk(s, i) {
          if i < 8 { assert s[0..8][i] == s[i]; }
          else if 9 <= i < 13 { assert s[9..13][i - 9] == s[i]; }
          else if 15 <= i < 18 { assert s[15..18][i - 15] == s[i]; }
          else if 20 <= i < 23 { assert s[20..23][i - 20] == s[i]; }
          else if 24 <= i { assert s[24..36][i - 24] == s[i]; }
        }
      }
    }
    assert (|s| == 36 && forall i :: 0 <= i < 36 ==> PositionOk(s, i)) ==> ok by {
      if |s| == 36 && forall i :: 0 <= i < 36 ==> PositionOk(s, i) {
        assert forall i :: 0 <= i < 8 ==> s[0..8][i] == s[i] && PositionOk(s, i);
        assert forall i :: 0 <= i < 4 ==> s[9..13][i] == s[i + 9] && PositionOk(s, i + 9);
        assert forall i :: 0 <= i < 3 ==> s[15..18][i] == s[i + 15] && PositionOk(s, i + 15);
        assert forall i :: 0 <= i < 3 ==> s[20..23][i] == s[i + 20] && PositionOk(s, i + 20);
        assert forall i :: 0 <= i < 12 ==> s[24..36][i] == s[i + 24] && PositionOk(s, i + 24);
        assert PositionOk(s, 8) && PositionOk(s, 13) && PositionOk(s, 14);
        assert PositionOk(s, 18) && PositionOk(s, 19) && PositionOk(s, 23);
      }
    }
    ok
  }

  /** The pattern is anchored at both ends: nothing may precede or follow a valid UUID, and the
      empty string is rejected. */
  lemma UUIDIsAnchored(u: string, c: char)
    requires IsValidUUID(u)
    ensures !IsValidUUID([c] + u) && !IsValidUUID(u + [c]) && !IsValidUUID("")
  {
  }

  /** Every character of a valid UUID is a hyphen or a hex digit. */
  lemma UUIDCharacters(u: string)
    requires IsValidUUID(u)
    ensures forall i :: 0 <= i < |u| ==> u[i] == '-' || IsHex(u[i])
  {
    forall i | 0 <= i < |u| ensures u[i] == '-' || IsHex(u[i]) {
      assert PositionOk(u, i);
    }
  }

  /** A hex-only piece holds no hyphen. */
  lemma HexHasNoHyphen(x: string)
    requires AllHex(x)
    ensures Count(x, '-') == 0
  {
    assert '-' !in x;
    CountAbsent(x, '-');
  }

  /** Appending a hyphen and a hex-only piece adds exactly one hyphen. */
  lemma HyphenThenHex(p: string, x: string)
    requires AllHex(x)
    ensures Count(p + "-" + x, '-') == Count(p, '-') + 1
  {
    HexHasNoHyphen(x);
    assert Count("-", '-') == 1;
    CountAppend(p, "-", '-');
    CountAppend(p + "-", x, '-');
  }

  /** A valid UUID holds exactly four hyphens. */
  lemma UUIDHyphenCount(u: string)
    requires IsValidUUID(u)
    ensures Count(u, '-') == 4
  {
    var c, d := u[14..18], u[19..23];
    assert AllHex(c) by {
      assert forall k :: 0 <= k < 4 ==> c[k] == u[14 + k] && PositionOk(u, 14 + k);
    }
    assert AllHex(d) by {
      assert forall k :: 0 <= k < 4 ==> d[k] == u[19 + k] && PositionOk(u, 19 + k);
    }
    HexHasNoHyphen(u[..8]);
    HyphenThenHexPrefix(u, 8, 13);
    HyphenThenHexPrefix(u, 13, 18);
    HyphenThenHexPrefix(u, 18, 23);
    HyphenThenHexPrefix(u, 23, 36);
    assert u[..36] == u;
  }

  /** Extending a prefix that ends before a hyphen by the hyphen and a hex-only run adds exactly
      one hyphen. */
  lemma HyphenThenHexPrefix(u: string, n: nat, m: nat)
    requires n < m <= |u| && u[n] == '-' && AllHex(u[n + 1..m])
    ensures Count(u[..m], '-') == Count(u[..n], '-') + 1
  {
    assert u[..m] == u[..n] + "-" + u[n + 1..m];
    HyphenThenHex(u[..n], u[n + 1..m]);
  }

  /** Stripping the hyphens of a valid UUID leaves its 32 hex digits. */
  lemma StrippedUUID(u: string)
    requires IsValidUUID(u)
    ensures |RemoveChar(u, '-')| == 32 && AllHex(RemoveChar(u, '-'))
  {
    UUIDHyphenCount(u);
    UUIDCharacters(u);
    var r := RemoveChar(u, '-');
    forall i | 0 <= i < |r| ensures IsHex(r[i]) {
      assert r[i] in r;
    }
  }

  /** `src[i]` is the last element of `src` with its key. */
  predicate LastWithKey<T, V(==)>(src: seq<T>, key: T -> V, i: nat)
    requires i < |src|
  {
    forall j :: i < j < |src| ==> key(src[j]) != key(src[i])
  }

  /** Go's generic `Map`: insert every element under its key, in order, so later elements
      overwrite earlier ones. */
  function MapBy<T, V(==)>(src: seq<T>, key: T -> V): (m: map<V, T>)
    ensures forall i :: 0 <= i < |src| ==> key(src[i]) in m
    ensures forall v :: v in m ==> exists i :: 0 <= i < |src| && key(src[i]) == v
    decreases |src|
  {
    if |src| == 0 then map[]
    else
      var n := |src| - 1;
      var m0 := MapBy(src[..n], key);
      assert forall i :: 0 <= i < n ==> src[..n][i] == src[i];
      m0[key(src[n]) := src[n]]
  }

  /** Later elements win: each key maps to the last element carrying it. */
  lemma {:induction false} MapByLastWins<T, V>(src: seq<T>, key: T -> V, i: nat)
    requires i < |src| && LastWithKey(src, key, i)
    ensures MapBy(src, key)[key(src[i])] == src[i]
    decreases |src|
  {
    var n := |src| - 1;
    if i < n {
      var init := src[..n];
      var k := key(src[i]);
      assert key(src[n]) != k;
      assert MapBy(src, key)[k] == MapBy(init, key)[k];
      assert init[i] == src[i];
      assert forall j :: i < j < n ==> init[j] == src[j];
      MapByLastWins(init, key, i);
    }
  }

  /** Every key is mapped to the last element of the source that carries it. */
  lemma MapByValues<T, V>(src: seq<T>, key: T -> V, k: V)
    requires k in MapBy(src, key)
    ensures MapBy(src, key)[k] in src && key(MapBy(src, key)[k]) == k
  {
    var found := FindLast(src, (x: T) => key(x) == k);
    var i :| 0 <= i < |src| && key(src[i]) == k;
    assert found.Some?;
    assert LastWithKey(src, key, found.value);
    MapByLastWins(src, key, found.value);
  }
}
