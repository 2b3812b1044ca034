/** JavaScript's default string order (by UTF-16 code unit) and sorted key lists. */
module TextOrder {
  import opened Common

  predicate Less(a: Text, b: Text) {
    b != [] && (a == [] || a[0] < b[0] || (a[0] == b[0] && Less(a[1..], b[1..])))
  }

  /** The texts agree on their first n units, and there a ends or has the smaller unit. */
  predicate DiffersAt(a: Text, b: Text, n: nat) {
    n <= |a| && n < |b| && a[..n] == b[..n] && (n == |a| || a[n] < b[n])
  }

  /** The order JavaScript's sort uses by default, without recursion. */
  ghost predicate Before(a: Text, b: Text) {
    exists n: nat :: DiffersAt(a, b, n)
  }

  lemma {:induction false} LessDiffers(a: Text, b: Text) returns (n: nat)
    requires Less(a, b)
    ensures DiffersAt(a, b, n)
  {
    if a == [] || a[0] < b[0] {
      n := 0;
    } else {
      n := LessDiffers(a[1..], b[1..]);
      n := n + 1;
      assert a[..n] == [a[0]] + a[1..][..n - 1] && b[..n] == [b[0]] + b[1..][..n - 1];
    }
  }

  lemma {:induction false} DiffersLess(a: Text, b: Text, n: nat)
    requires DiffersAt(a, b, n)
    ensures Less(a, b)
  {
    if n > 0 {
      assert a[0] == a[..n][0] == b[..n][0] == b[0];
      assert a[1..][..n - 1] == a[..n][1..] == b[..n][1..] == b[1..][..n - 1];
      DiffersLess(a[1..], b[1..], n - 1);
    }
  }

  /** The order is the lexicographic one: the first difference decides, and a proper prefix comes first. */
  lemma LessIsLexicographic(a: Text, b: Text)
    ensures Less(a, b) <==> Before(a, b)
  {
    if Less(a, b) {
      var n := LessDiffers(a, b);
    } else if Before(a, b) {
      var n: nat :| DiffersAt(a, b, n);
      DiffersLess(a, b, n);
    }
  }

  lemma {:induction false} LessTrichotomy(a: Text, b: Text)
    ensures Less(a, b) || a == b || Less(b, a)
    ensures !(Less(a, b) && Less(b, a))
    ensures a == b ==> !Less(a, b)
  {
    if a != [] && b != [] {
      LessTrichotomy(a[1..], b[1..]);
      assert a == [a[0]] + a[1..] && b == [b[0]] + b[1..];
    }
  }

  lemma {:induction false} LessTransitive(a: Text, b: Text, c: Text)
    requires Less(a, b) && Less(b, c)
    ensures Less(a, c)
  {
    if a != [] && a[0] == b[0] && b[0] == c[0] {
      LessTransitive(a[1..], b[1..], c[1..]);
    }
  }

  ghost predicate Sorted(keys: seq<Text>) {
    forall i, j :: 0 <= i < j < |keys| ==> Less(keys[i], keys[j])
  }

  /** Every text stands before those after it. */
  ghost predicate Ascending(keys: seq<Text>) {
    forall i, j :: 0 <= i < j < |keys| ==> Before(keys[i], keys[j])
  }

  lemma SortedIsAscending(keys: seq<Text>)
    ensures Sorted(keys) <==> Ascending(keys)
  {
    forall i, j | 0 <= i < j < |keys| ensures Less(keys[i], keys[j]) <==> Before(keys[i], keys[j]) {
      LessIsLexicographic(keys[i], keys[j]);
    }
  }

  function Insert(key: Text, keys: seq<Text>): seq<Text> {
    if keys == [] then [key]
    else if Less(key, keys[0]) then [key] + keys
    else [keys[0]] + Insert(key, keys[1..])
  }

  lemma {:induction false} InsertSorted(key: Text, keys: seq<Text>)
    requires Sorted(keys) && key !in keys
    ensures Sorted(Insert(key, keys))
    ensures Elements(Insert(key, keys)) == Elements(keys) + {key}
  {
    if keys == [] {
    } else if Less(key, keys[0]) {
      forall j | 0 <= j < |keys| ensures Less(key, keys[j]) {
        if j > 0 {
          LessTransitive(key, keys[0], keys[j]);
        }
      }
    } else {
      LessTrichotomy(key, keys[0]);
      InsertSorted(key, keys[1..]);
      var rest := Insert(key, keys[1..]);
      assert keys == [keys[0]] + keys[1..];
      assert Elements(keys) == Elements(keys[1..]) + {keys[0]};
      forall j | 0 <= j < |rest| ensures Less(keys[0], rest[j]) {
        assert rest[j] in Elements(rest);
        if rest[j] != key {
          assert rest[j] in keys[1..];
        }
      }
      assert Elements([keys[0]] + rest) == Elements(rest) + {keys[0]};
    }
  }

  /** The elements of a finite set of keys in ascending order. */
  ghost function InOrder(keys: set<Text>): (r: seq<Text>)
    ensures Sorted(r) && Elements(r) == keys
    ensures forall i :: 0 <= i < |r| ==> r[i] in keys
  {
    if keys == {} then []
    else
      var k :| k in keys;
      InsertSorted(k, InOrder(keys - {k}));
      Insert(k, InOrder(keys - {k}))
  }

  lemma {:induction false} SortedUnique(a: seq<Text>, b: seq<Text>)
    requires Sorted(a) && Sorted(b) && Elements(a) == Elements(b)
    ensures a == b
  {
    assert forall i :: 0 <= i < |a| ==> a[i] in Elements(b);
    assert forall j :: 0 <= j < |b| ==> b[j] in Elements(a);
    if a != [] && b != [] {
      var i :| 0 <= i < |b| && b[i] == a[0];
      var j :| 0 <= j < |a| && a[j] == b[0];
      LessTrichotomy(a[0], b[0]);
      assert a[0] == b[0];
      TailElements(a);
      TailElements(b);
      SortedUnique(a[1..], b[1..]);
      assert a == [a[0]] + a[1..] && b == [b[0]] + b[1..];
    }
  }

  lemma TailElements(a: seq<Text>)
    requires a != [] && Sorted(a)
    ensures Sorted(a[1..]) && Elements(a[1..]) == Elements(a) - {a[0]}
  {
    forall j | 1 <= j < |a| ensures a[j] != a[0] {
      LessTrichotomy(a[0], a[j]);
    }
    assert a == [a[0]] + a[1..];
  }
}
