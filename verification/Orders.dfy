// Strings in the order a tree map keeps its keys, and the strings a list repeats.
module Orders {

  // Strictly before, character by character.
  predicate Before(a: string, b: string) {
    b != [] && (a == [] || a[0] < b[0] || (a[0] == b[0] && Before(a[1..], b[1..])))
  }

  lemma {:induction false} BeforeIsTotal(a: string, b: string)
    ensures !(Before(a, b) && Before(b, a))
    ensures a == b <==> !Before(a, b) && !Before(b, a)
  {
    if a != [] && b != [] {
      BeforeIsTotal(a[1..], b[1..]);
      assert a == [a[0]] + a[1..] && b == [b[0]] + b[1..];
    }
  }

  lemma {:induction false} BeforeIsTransitive(a: string, b: string, c: string)
    requires Before(a, b) && Before(b, c)
    ensures Before(a, c)
  {
    if a != [] && a[0] == b[0] == c[0] {
      BeforeIsTransitive(a[1..], b[1..], c[1..]);
    }
  }

  predicate Ascending(keys: seq<string>) {
    forall i, j | 0 <= i < j < |keys| :: Before(keys[i], keys[j])
  }

  // Adding a key in its place, once.
  function Insert(keys: seq<string>, x: string): seq<string> {
    if keys == [] || Before(x, keys[0]) then [x] + keys
    else if x == keys[0] then keys
    else [keys[0]] + Insert(keys[1..], x)
  }

  lemma {:induction false} InsertMeaning(keys: seq<string>, x: string)
    requires Ascending(keys)
    ensures Ascending(Insert(keys, x))
    ensures forall k :: k in Insert(keys, x) <==> k == x || k in keys
  {
    if keys != [] {
      BeforeIsTotal(x, keys[0]);
      if Before(x, keys[0]) {
        forall j | 0 <= j < |keys| ensures Before(x, keys[j]) {
          if j > 0 {
            BeforeIsTransitive(x, keys[0], keys[j]);
          }
        }
      } else {
        InsertMeaning(keys[1..], x);
        assert forall k :: k in keys <==> k == keys[0] || k in keys[1..];
        var rest := Insert(keys[1..], x);
        forall j | 0 <= j < |rest| && x != keys[0] ensures Before(keys[0], rest[j]) {
          assert rest[j] in rest;
        }
      }
    }
  }

  // Two ascending lists of the same strings are equal.
  lemma {:induction false} AscendingIsUnique(a: seq<string>, b: seq<string>)
    requires Ascending(a) && Ascending(b) && forall k :: k in a <==> k in b
    ensures a == b
  {
    if a != [] || b != [] {
      SameFirst(a, b);
      assert forall k :: k in a[1..] <==> k in a && k != a[0] by { FirstOnce(a); }
      assert forall k :: k in b[1..] <==> k in b && k != b[0] by { FirstOnce(b); }
      AscendingIsUnique(a[1..], b[1..]);
      assert a == [a[0]] + a[1..] && b == [b[0]] + b[1..];
    }
  }

  lemma FirstOnce(keys: seq<string>)
    requires Ascending(keys) && keys != []
    ensures forall k :: k in keys[1..] <==> k in keys && k != keys[0]
    ensures forall k | k in keys[1..] :: Before(keys[0], k)
  {
    BeforeIsTotal(keys[0], keys[0]);
    assert forall k :: k in keys <==> k == keys[0] || k in keys[1..];
  }

  lemma SameFirst(a: seq<string>, b: seq<string>)
    requires Ascending(a) && Ascending(b) && forall k :: k in a <==> k in b
    requires a != [] || b != []
    ensures a != [] && b != [] && a[0] == b[0]
  {
    assert a != [] ==> a[0] in b;
    assert b != [] ==> b[0] in a;
    FirstOnce(a);
    FirstOnce(b);
    BeforeIsTotal(a[0], b[0]);
  }

  // ---- repeated strings ---------------------------------------------------------------

  // How often a list holds a string.
  function Tally(names: seq<string>, name: string): nat {
    if names == [] then 0
    else (if names[0] == name then 1 else 0) + Tally(names[1..], name)
  }

  lemma {:induction false} TallyAppend(names: seq<string>, last: string, name: string)
    ensures Tally(names + [last], name) == Tally(names, name) + if last == name then 1 else 0
  {
    if names == [] {
      assert [] + [last] == [last];
    } else {
      assert (names + [last])[1..] == names[1..] + [last];
      TallyAppend(names[1..], last, name);
    }
  }

  // A name is repeated exactly when two positions hold it.
  lemma {:induction false} TallyMeaning(names: seq<string>, name: string)
    ensures Tally(names, name) > 0 <==> name in names
    ensures Tally(names, name) > 1 <==> exists i, j :: 0 <= i < j < |names| && names[i] == names[j] == name
  {
    if names != [] {
      var tail := names[1..];
      TallyMeaning(tail, name);
      assert forall n :: n in names <==> n == names[0] || n in tail;
      if i, j :| 0 <= i < j < |tail| && tail[i] == tail[j] == name {
        assert names[i + 1] == names[j + 1] == name;
      }
      if names[0] == name && name in tail {
        var j :| 0 <= j < |tail| && tail[j] == name;
        assert names[0] == names[j + 1] == name;
      }
      if i, j :| 0 <= i < j < |names| && names[i] == names[j] == name {
        if i > 0 {
          assert tail[i - 1] == tail[j - 1] == name;
        } else {
          assert tail[j - 1] == name;
        }
      }
    }
  }

  // The strings a list holds more than once, each once and in order.
  ghost predicate AreRepeated(repeated: seq<string>, names: seq<string>) {
    Ascending(repeated) && forall n :: n in repeated <==> Tally(names, n) > 1
  }

  function Keys(names: seq<string>): seq<string> {
    if names == [] then [] else Insert(Keys(names[1..]), names[0])
  }

  lemma {:induction false} KeysMeaning(names: seq<string>)
    ensures Ascending(Keys(names)) && forall n :: n in Keys(names) <==> n in names
  {
    if names != [] {
      KeysMeaning(names[1..]);
      InsertMeaning(Keys(names[1..]), names[0]);
      assert forall n :: n in names <==> n == names[0] || n in names[1..];
    }
  }

  function Several(keys: seq<string>, names: seq<string>): seq<string> {
    if keys == [] then []
    else (if Tally(names, keys[0]) > 1 then [keys[0]] else []) + Several(keys[1..], names)
  }

  lemma {:induction false} SeveralMeaning(keys: seq<string>, names: seq<string>)
    requires Ascending(keys)
    ensures Ascending(Several(keys, names))
    ensures forall n :: n in Several(keys, names) <==> n in keys && Tally(names, n) > 1
  {
    if keys != [] {
      SeveralMeaning(keys[1..], names);
      FirstOnce(keys);
      var rest := Several(keys[1..], names);
      assert forall j | 0 <= j < |rest| :: rest[j] in rest;
    }
  }

  // The repeated strings as a function of the list.
  function Duplicates(names: seq<string>): (repeated: seq<string>)
    ensures AreRepeated(repeated, names)
  {
    KeysMeaning(names);
    SeveralMeaning(Keys(names), names);
    assert forall n :: Tally(names, n) > 1 ==> n in names by {
      forall n ensures Tally(names, n) > 1 ==> n in names { TallyMeaning(names, n); }
    }
    Several(Keys(names), names)
  }

  // The keys counted more than once, by the counting tree map the program keeps: `keys` are
  // its keys in order.
  method Repeated(names: seq<string>) returns (repeated: seq<string>)
    ensures repeated == Duplicates(names)
  {
    var keys: seq<string>, counts: map<string, nat> := [], map[];
    for i := 0 to |names|
      invariant Ascending(keys) && forall n :: n in counts <==> n in keys
      invariant forall n :: Tally(names[..i], n) == if n in counts then counts[n] else 0
    {
      assert names[..i + 1] == names[..i] + [names[i]];
      forall n ensures Tally(names[..i + 1], n) == Tally(names[..i], n) + if names[i] == n then 1 else 0 {
        TallyAppend(names[..i], names[i], n);
      }
      InsertMeaning(keys, names[i]);
      keys := Insert(keys, names[i]);
      counts := counts[names[i] := (if names[i] in counts then counts[names[i]] else 0) + 1];
    }
    assert names[..|names|] == names;
    repeated := [];
    for k := 0 to |keys|
      invariant Ascending(repeated)
      invariant forall n :: n in repeated <==> n in keys[..k] && counts[n] > 1
    {
      assert keys[..k + 1] == keys[..k] + [keys[k]];
      forall n | n in keys[..k] ensures Before(n, keys[k]) {
      }
      if counts[keys[k]] > 1 {
        assert forall i | 0 <= i < |repeated| :: repeated[i] in repeated;
        repeated := repeated + [keys[k]];
      }
    }
    assert keys[..|keys|] == keys;
    AscendingIsUnique(repeated, Duplicates(names));
  }

  // Only how often each string occurs decides, not where.
  lemma DuplicatesIgnoreOrder(a: seq<string>, b: seq<string>)
    requires forall n :: Tally(a, n) == Tally(b, n)
    ensures Duplicates(a) == Duplicates(b)
  {
    AscendingIsUnique(Duplicates(a), Duplicates(b));
  }
}
