/** JSON documents as the OpenAPI tooling holds them after decoding (`map[string]any`,
    `[]any` and scalars), and the deterministic traversal every check is built on. */
module JsonTree {

  datatype Json =
    | Null
    | Bool(flag: bool)
    | Number(literal: string)
    | Str(text: string)
    | Arr(items: seq<Json>)
    | Obj(fields: map<string, Json>)

  /** The key that makes an object a reference. */
  const REF := "$ref"

  // ---------- sums over the entries of an object ----------

  ghost function Sum(m: map<string, nat>): nat
    decreases |m|
  {
    if m == map[] then 0 else var k :| k in m; m[k] + Sum(m - {k})
  }

  /** The sum does not depend on the order in which entries are taken. */
  lemma {:induction false} SumRemove(m: map<string, nat>, k: string)
    requires k in m
    ensures Sum(m) == m[k] + Sum(m - {k})
    decreases |m|
  {
    var j :| j in m && Sum(m) == m[j] + Sum(m - {j});
    if j != k {
      SumRemove(m - {j}, k);
      SumRemove(m - {k}, j);
      assert m - {j} - {k} == m - {k} - {j};
    }
  }

  lemma SumAdd(m: map<string, nat>, k: string, n: nat)
    requires k !in m
    ensures Sum(m[k := n]) == Sum(m) + n
  {
    SumRemove(m[k := n], k);
    assert m[k := n] - {k} == m;
  }

  lemma {:induction false} SumZero(m: map<string, nat>)
    requires forall k | k in m :: m[k] == 0
    ensures Sum(m) == 0
    decreases |m|
  {
    if m != map[] {
      var k :| k in m;
      SumRemove(m, k);
      SumZero(m - {k});
    }
  }

  // ---------- sorted keys ----------

  predicate LexLe(a: string, b: string) {
    if a == "" then true
    else if b == "" then false
    else if a[0] == b[0] then LexLe(a[1..], b[1..])
    else a[0] < b[0]
  }

  lemma {:induction false} LexLeTotal(a: string, b: string)
    ensures LexLe(a, b) || LexLe(b, a)
  {
    if a != "" && b != "" && a[0] == b[0] {
      LexLeTotal(a[1..], b[1..]);
    }
  }

  lemma {:induction false} LexLeAntisymmetric(a: string, b: string)
    requires LexLe(a, b) && LexLe(b, a)
    ensures a == b
  {
    if a != "" && b != "" {
      LexLeAntisymmetric(a[1..], b[1..]);
      assert a == [a[0]] + a[1..] && b == [b[0]] + b[1..];
    }
  }

  lemma {:induction false} LexLeTransitive(a: string, b: string, c: string)
    requires LexLe(a, b) && LexLe(b, c)
    ensures LexLe(a, c)
  {
    if a != "" && b != "" && c != "" && a[0] == b[0] == c[0] {
      LexLeTransitive(a[1..], b[1..], c[1..]);
    }
  }

  /** One is a prefix of the other, or the smaller character at the first difference. */
  lemma {:induction false} LexLeIff(a: string, b: string)
    ensures LexLe(a, b) <==> a <= b || exists n: nat :: DiffersAt(a, b, n) && a[n] < b[n]
  {
    if a != "" && b != "" && a[0] == b[0] {
      LexLeIff(a[1..], b[1..]);
      assert a == [a[0]] + a[1..] && b == [b[0]] + b[1..];
      if n: nat :| DiffersAt(a, b, n) && a[n] < b[n] {
        assert a[1..][..n - 1] == a[..n][1..] && b[1..][..n - 1] == b[..n][1..];
        assert DiffersAt(a[1..], b[1..], n - 1);
      }
      if n: nat :| DiffersAt(a[1..], b[1..], n) && a[1..][n] < b[1..][n] {
        assert a[..n + 1] == [a[0]] + a[1..][..n] && b[..n + 1] == [b[0]] + b[1..][..n];
        assert DiffersAt(a, b, n + 1);
      }
    } else if a != "" && b != "" {
      assert a[..0] == b[..0];
      assert DiffersAt(a, b, 0);
      assert forall n: nat | DiffersAt(a, b, n) && n > 0 :: a[..n][0] == b[..n][0];
    }
  }

  ghost predicate DiffersAt(a: string, b: string, n: nat) {
    n < |a| && n < |b| && a[..n] == b[..n] && a[n] != b[n]
  }

  predicate IsLeast(k: string, keys: set<string>) {
    k in keys && forall j | j in keys :: LexLe(k, j)
  }

  lemma {:induction false} LeastExists(keys: set<string>)
    requires keys != {}
    ensures exists k :: IsLeast(k, keys)
  {
    var k :| k in keys;
    if keys == {k} {
      LexLeTotal(k, k);
      assert IsLeast(k, keys);
    } else {
      LeastExists(keys - {k});
      var j :| IsLeast(j, keys - {k});
      LexLeTotal(j, k);
      LexLeTotal(k, k);
      var least := if LexLe(j, k) then j else k;
      forall i | i in keys ensures LexLe(least, i) {
        if i != k && least == k { LexLeTransitive(k, j, i); }
      }
      assert IsLeast(least, keys);
    }
  }

  lemma LeastUnique(keys: set<string>)
    ensures forall j, k :: IsLeast(j, keys) && IsLeast(k, keys) ==> j == k
  {
    forall j, k | IsLeast(j, keys) && IsLeast(k, keys) ensures j == k {
      LexLeAntisymmetric(j, k);
    }
  }

  /** The keys in increasing order, each once. */
  function SortedKeys(keys: set<string>): (r: seq<string>)
    ensures forall k :: k in r <==> k in keys
    ensures forall i, j | 0 <= i < j < |r| :: r[i] != r[j] && LexLe(r[i], r[j])
  {
    if keys == {} then []
    else
      LeastExists(keys);
      LeastUnique(keys);
      var k :| k in keys && IsLeast(k, keys);
      [k] + SortedKeys(keys - {k})
  }
}
