/** Sorting texts. */
module TextOrder {

  /** Text order, as Rust's `sort` uses it for strings and paths of one folder. */
  predicate Less(a: string, b: string)
    decreases |a|
  {
    b != [] && (a == [] || a[0] < b[0] || (a[0] == b[0] && Less(a[1..], b[1..])))
  }

  lemma {:induction false} LessOrder(a: string, b: string, c: string)
    ensures !Less(a, a)
    ensures a == b || Less(a, b) || Less(b, a)
    ensures Less(a, b) && Less(b, c) ==> Less(a, c)
    decreases |a|
  {
    if a != [] && b != [] {
      if c != [] { LessOrder(a[1..], b[1..], c[1..]); } else { LessOrder(a[1..], b[1..], []); }
      assert a == [a[0]] + a[1..] && b == [b[0]] + b[1..];
    } else if a != [] {
      LessOrder(a[1..], [], []);
    }
  }

  lemma {:induction false} LessAfterPrefix(p: string, a: string, b: string)
    ensures Less(p + a, p + b) <==> Less(a, b)
  {
    if p == [] {
      assert p + a == a && p + b == b;
    } else {
      assert (p + a)[1..] == p[1..] + a && (p + b)[1..] == p[1..] + b;
      LessAfterPrefix(p[1..], a, b);
    }
  }

  lemma {:induction false} LessBeforeSuffix(a: string, b: string, s: string)
    requires |a| == |b|
    ensures Less(a + s, b + s) <==> Less(a, b)
  {
    if a == [] {
      assert a + s == s && b + s == s;
      LessOrder(s, s, s);
    } else {
      assert (a + s)[1..] == a[1..] + s && (b + s)[1..] == b[1..] + s;
      LessBeforeSuffix(a[1..], b[1..], s);
    }
  }

  /** Puts `x` before the first greater text. */
  function Insert(s: seq<string>, x: string): seq<string> {
    if s == [] then [x]
    else if Less(x, s[0]) then [x] + s
    else [s[0]] + Insert(s[1..], x)
  }

  /** In order, repeats allowed. */
  ghost predicate Ordered(s: seq<string>) {
    forall i, j | 0 <= i < j < |s| :: !Less(s[j], s[i])
  }

  lemma {:induction false} InsertOrders(s: seq<string>, x: string)
    requires Ordered(s)
    ensures Ordered(Insert(s, x)) && multiset(Insert(s, x)) == multiset(s) + multiset{x}
  {
    if s == [] {
    } else if Less(x, s[0]) {
      forall j | 0 <= j < |s| ensures !Less(s[j], x) {
        LessOrder(s[j], x, s[0]);
        LessOrder(x, s[0], x);
      }
    } else {
      assert s == [s[0]] + s[1..];
      InsertOrders(s[1..], x);
      var t := Insert(s[1..], x);
      forall j | 0 <= j < |t| ensures !Less(t[j], s[0]) {
        assert t[j] in multiset(s[1..]) + multiset{x};
        if t[j] in s[1..] {
          var i :| 0 <= i < |s[1..]| && s[1..][i] == t[j];
          assert s[i + 1] == t[j];
        }
      }
    }
  }

  method Sort(texts: seq<string>) returns (sorted: seq<string>)
    ensures Ordered(sorted) && multiset(sorted) == multiset(texts)
  {
    sorted := [];
    for i := 0 to |texts|
      invariant Ordered(sorted) && multiset(sorted) == multiset(texts[..i])
    {
      InsertOrders(sorted, texts[i]);
      sorted := Insert(sorted, texts[i]);
      assert texts[..i + 1] == texts[..i] + [texts[i]];
    }
    assert texts[..|texts|] == texts;
  }

  ghost predicate Repeats(s: seq<string>) {
    exists i, j :: 0 <= i < j < |s| && s[i] == s[j]
  }

  /** `s[k]` and the text after it are equal. */
  ghost predicate Twins(s: seq<string>, k: int) {
    0 <= k < |s| - 1 && s[k] == s[k + 1]
  }

  /** In sorted texts a repeat shows as two equal neighbours. */
  lemma RepeatsAreNeighbours(s: seq<string>)
    requires Ordered(s)
    ensures Repeats(s) <==> exists k :: Twins(s, k)
  {
    if Repeats(s) {
      var i, j :| 0 <= i < j < |s| && s[i] == s[j];
      LessOrder(s[i], s[i + 1], s[i]);
      assert !Less(s[i + 1], s[i]) && (i + 1 < j ==> !Less(s[j], s[i + 1]));
      assert Twins(s, i);
    }
    if exists k :: Twins(s, k) {
      var k :| Twins(s, k);
      var next := k + 1;
      assert s[k] == s[next];
    }
  }

  /** Sorting neither makes nor hides a repeat. */
  lemma RepeatsInAnyOrder(a: seq<string>, b: seq<string>)
    requires multiset(a) == multiset(b) && Repeats(a)
    ensures Repeats(b)
  {
    var i, j :| 0 <= i < j < |a| && a[i] == a[j];
    assert a == a[..j] + [a[j]] + a[j + 1..];
    assert a[i] in multiset(a[..j]);
    assert multiset(a)[a[i]] >= 2;
    TwiceRepeats(b, a[i]);
  }

  lemma {:induction false} TwiceRepeats(s: seq<string>, x: string)
    requires multiset(s)[x] >= 2
    ensures Repeats(s)
  {
    var i :| 0 <= i < |s| && s[i] == x;
    var rest := s[..i] + s[i + 1..];
    assert s == s[..i] + [s[i]] + s[i + 1..];
    assert x in multiset(rest);
    var j :| 0 <= j < |rest| && rest[j] == x;
    if j < i {
      assert s[j] == s[i];
    } else {
      var k := j + 1;
      assert s[k] == rest[j] && s[i] == s[k];
    }
  }
}
