/** Lists of numbered objects kept in ascending order of a key, equal keys in
    order of arrival. The kernel keeps its PRIO wait lists this way (key: current
    priority) and every row of its timer skip list (key: deadline). */
module OrderedList {

  type Key = map<nat, nat>

  ghost predicate Known(s: seq<nat>, key: Key) {
    forall t :: t in s ==> t in key
  }

  ghost predicate Distinct(s: seq<nat>) {
    s == [] || (s[0] !in s[1..] && Distinct(s[1..]))
  }

  /** t in front of the first element with a strictly larger key. */
  function Insert(s: seq<nat>, t: nat, key: Key): seq<nat>
    requires Known(s, key) && t in key
  {
    if s == [] || key[t] < key[s[0]] then [t] + s
    else [s[0]] + Insert(s[1..], t, key)
  }

  /** rt_list_remove of t's node. */
  function Remove(s: seq<nat>, t: nat): seq<nat> {
    if s == [] then []
    else if s[0] == t then s[1..]
    else [s[0]] + Remove(s[1..], t)
  }

  /** Smallest key first. */
  ghost predicate Ordered(s: seq<nat>, key: Key) {
    s == [] ||
    (s[0] in key && (forall x :: x in s[1..] ==> x in key && key[s[0]] <= key[x]) && Ordered(s[1..], key))
  }

  lemma {:induction false} Cons(x: nat, s: seq<nat>)
    ensures ([x] + s)[0] == x && ([x] + s)[1..] == s
  {
  }

  lemma {:induction false} InsertMembers(s: seq<nat>, t: nat, key: Key, x: nat)
    requires Known(s, key) && t in key
    ensures x in Insert(s, t, key) <==> x == t || x in s
  {
    if s != [] && key[t] >= key[s[0]] {
      InsertMembers(s[1..], t, key, x);
    }
  }

  lemma {:induction false} AppendDistinct(s: seq<nat>, t: nat)
    requires Distinct(s) && t !in s
    ensures Distinct(s + [t])
  {
    if s != [] {
      AppendDistinct(s[1..], t);
      assert (s + [t])[1..] == s[1..] + [t];
    } else {
      assert (s + [t])[1..] == [];
    }
  }

  lemma {:induction false} InsertDistinct(s: seq<nat>, t: nat, key: Key)
    requires Known(s, key) && t in key && Distinct(s) && t !in s
    ensures Distinct(Insert(s, t, key))
  {
    if s == [] || key[t] < key[s[0]] {
      Cons(t, s);
    } else {
      InsertDistinct(s[1..], t, key);
      InsertMembers(s[1..], t, key, s[0]);
      Cons(s[0], Insert(s[1..], t, key));
    }
  }

  /** Insertion keeps the list ordered. */
  lemma {:induction false} InsertOrdered(s: seq<nat>, t: nat, key: Key)
    requires Known(s, key) && t in key && Ordered(s, key)
    ensures Ordered(Insert(s, t, key), key)
  {
    if s == [] || key[t] < key[s[0]] {
      Cons(t, s);
      forall x | x in s ensures key[t] <= key[x] {
        assert x == s[0] || x in s[1..];
      }
    } else {
      var r := Insert(s[1..], t, key);
      InsertOrdered(s[1..], t, key);
      Cons(s[0], r);
      forall x | x in r ensures x in key && key[s[0]] <= key[x] {
        InsertMembers(s[1..], t, key, x);
      }
    }
  }

  /** t is placed behind its equals: everything in front of it has a key at most
      as large, everything behind it a larger one. */
  lemma {:induction false} InsertPlace(s: seq<nat>, t: nat, key: Key) returns (k: nat)
    requires Known(s, key) && t in key && Ordered(s, key)
    ensures k <= |s| && Insert(s, t, key) == s[..k] + [t] + s[k..]
    ensures forall x :: x in s[..k] ==> key[x] <= key[t]
    ensures forall x :: x in s[k..] ==> key[t] < key[x]
  {
    if s == [] || key[t] < key[s[0]] {
      k := 0;
      forall x | x in s ensures key[t] < key[x] {
        assert x == s[0] || x in s[1..];
      }
    } else {
      var j := InsertPlace(s[1..], t, key);
      k := j + 1;
      assert s[..k] == [s[0]] + s[1..][..j] && s[k..] == s[1..][j..];
    }
  }

  lemma {:induction false} RemoveMember(s: seq<nat>, t: nat, x: nat)
    requires Distinct(s)
    ensures x in Remove(s, t) <==> x != t && x in s
  {
    if s != [] && s[0] != t {
      RemoveMember(s[1..], t, x);
    }
  }

  lemma {:induction false} RemoveMembers(s: seq<nat>, t: nat)
    requires Distinct(s)
    ensures forall x :: x in Remove(s, t) <==> x != t && x in s
  {
    forall x ensures x in Remove(s, t) <==> x != t && x in s { RemoveMember(s, t, x); }
  }

  lemma {:induction false} RemoveDistinct(s: seq<nat>, t: nat)
    requires Distinct(s)
    ensures Distinct(Remove(s, t))
  {
    if s != [] && s[0] != t {
      RemoveDistinct(s[1..], t);
      RemoveMember(s[1..], t, s[0]);
      Cons(s[0], Remove(s[1..], t));
    }
  }

  lemma {:induction false} RemoveOrdered(s: seq<nat>, t: nat, key: Key)
    requires Distinct(s) && Ordered(s, key)
    ensures Ordered(Remove(s, t), key)
  {
    if s != [] && s[0] != t {
      var r := Remove(s[1..], t);
      RemoveOrdered(s[1..], t, key);
      Cons(s[0], r);
      forall x | x in r ensures x in key && key[s[0]] <= key[x] { RemoveMember(s[1..], t, x); }
    }
  }

  lemma {:induction false} OrderedFrame(s: seq<nat>, p: Key, q: Key)
    requires Ordered(s, p) && forall t :: t in s ==> t in p && t in q && q[t] == p[t]
    ensures Ordered(s, q)
  {
    if s != [] { OrderedFrame(s[1..], p, q); }
  }

  lemma {:induction false} RemoveSubset(s: seq<nat>, t: nat)
    ensures forall x :: x in Remove(s, t) ==> x in s
  {
    if s != [] && s[0] != t {
      RemoveSubset(s[1..], t);
    }
  }

  lemma {:induction false} RemoveAbsent(s: seq<nat>, t: nat)
    requires t !in s
    ensures Remove(s, t) == s
  {
    if s != [] {
      RemoveAbsent(s[1..], t);
    }
  }

  /** Inserting may start anywhere at or before the first larger key. */
  lemma {:induction false} SplitFrom(s: seq<nat>, c: nat)
    requires 0 < c <= |s|
    ensures s[c..] == s[1..][c - 1..] && s[..c] == [s[0]] + s[1..][..c - 1]
    ensures c > 1 ==> s[1..][c - 2] == s[c - 1]
    ensures s[c - 1] == s[0] || s[c - 1] in s[1..]
  {
    assert c > 1 ==> s[1..][c - 2] == s[c - 1];
  }

  /** Whatever comes before an element with no larger key stays in front of t. */
  lemma {:induction false} InsertHead(s: seq<nat>, t: nat, key: Key, c: nat)
    requires Known(s, key) && t in key && Ordered(s, key) && 0 < c <= |s| && key[s[c - 1]] <= key[t]
    ensures Known(s[1..], key) && Ordered(s[1..], key) && (c > 1 ==> key[s[1..][c - 2]] <= key[t])
    ensures Insert(s, t, key) == [s[0]] + Insert(s[1..], t, key)
  {
    SplitFrom(s, c);
  }

  lemma {:induction false} InsertFrom(s: seq<nat>, t: nat, key: Key, c: nat)
    requires Known(s, key) && t in key && Ordered(s, key) && c <= |s|
    requires c > 0 ==> key[s[c - 1]] <= key[t]
    ensures Insert(s, t, key) == s[..c] + Insert(s[c..], t, key)
  {
    hide Ordered, Insert;
    if c == 0 {
      assert s[0..] == s;
    } else {
      InsertHead(s, t, key, c);
      InsertFrom(s[1..], t, key, c - 1);
      SplitFrom(s, c);
    }
  }

  // ------------------------------------------------------------ sublists

  /** a is what is left of b after dropping some elements. */
  ghost predicate Sub(a: seq<nat>, b: seq<nat>) {
    a == [] || (b != [] && if a[0] == b[0] then Sub(a[1..], b[1..]) else Sub(a, b[1..]))
  }

  lemma {:induction false} SubMembers(a: seq<nat>, b: seq<nat>)
    requires Sub(a, b)
    ensures forall x :: x in a ==> x in b
    decreases |b|
  {
    if a != [] {
      if a[0] == b[0] { SubMembers(a[1..], b[1..]); } else { SubMembers(a, b[1..]); }
      forall x | x in a ensures x in b { assert x == a[0] || x in a[1..]; }
    }
  }

  lemma {:induction false} SubDistinct(a: seq<nat>, b: seq<nat>)
    requires Sub(a, b) && Distinct(b)
    ensures Distinct(a)
    decreases |b|
  {
    if a != [] {
      if a[0] == b[0] {
        SubDistinct(a[1..], b[1..]);
        SubMembers(a[1..], b[1..]);
      } else {
        SubDistinct(a, b[1..]);
      }
    }
  }

  lemma {:induction false} SubOrdered(a: seq<nat>, b: seq<nat>, key: Key)
    requires Sub(a, b) && Ordered(b, key)
    ensures Ordered(a, key)
    decreases |b|
  {
    if a != [] {
      if a[0] == b[0] {
        SubOrdered(a[1..], b[1..], key);
        SubMembers(a[1..], b[1..]);
      } else {
        SubOrdered(a, b[1..], key);
      }
    }
  }

  lemma {:induction false} SubSelf(a: seq<nat>)
    ensures Sub(a, a)
  {
    if a != [] { SubSelf(a[1..]); }
  }

  lemma {:induction false} SubCons(a: seq<nat>, x: nat, b: seq<nat>)
    requires Sub(a, b)
    ensures Sub(a, [x] + b)
    decreases |b|, 1
  {
    Cons(x, b);
    if a != [] && a[0] == x {
      SubTail(a, b);
    }
  }

  /** Dropping the first element of a sublist leaves a sublist. */
  lemma {:induction false} SubTail(a: seq<nat>, b: seq<nat>)
    requires Sub(a, b) && a != []
    ensures Sub(a[1..], b)
    decreases |b|, 0
  {
    if a[0] == b[0] {
      SubCons(a[1..], b[0], b[1..]);
      assert [b[0]] + b[1..] == b;
    } else {
      SubTail(a, b[1..]);
      SubCons(a[1..], b[0], b[1..]);
      assert [b[0]] + b[1..] == b;
    }
  }

  lemma {:induction false} RemoveIsSub(s: seq<nat>, t: nat)
    ensures Sub(Remove(s, t), s)
  {
    if s != [] {
      if s[0] == t {
        SubSelf(s[1..]);
        SubCons(s[1..], t, s[1..]);
        assert [t] + s[1..] == s;
      } else {
        RemoveIsSub(s[1..], t);
        Cons(s[0], Remove(s[1..], t));
      }
    }
  }

  lemma {:induction false} SubRemove(a: seq<nat>, b: seq<nat>, t: nat)
    requires Sub(a, b) && Distinct(b)
    ensures Sub(Remove(a, t), Remove(b, t))
    decreases |b|
  {
    if a != [] {
      if a[0] == b[0] {
        if a[0] != t {
          SubRemove(a[1..], b[1..], t);
          Cons(a[0], Remove(a[1..], t));
          Cons(b[0], Remove(b[1..], t));
        }
      } else if b[0] == t {
        SubMembers(a, b[1..]);
        RemoveAbsent(a, t);
      } else {
        SubRemove(a, b[1..], t);
        SubCons(Remove(a, t), b[0], Remove(b[1..], t));
      }
    }
  }

  lemma {:induction false} SubInsertLower(a: seq<nat>, b: seq<nat>, t: nat, key: Key)
    requires Sub(a, b) && Known(b, key) && t in key && t !in b
    ensures Sub(a, Insert(b, t, key))
    decreases |b|
  {
    if b == [] || key[t] < key[b[0]] {
      SubCons(a, t, b);
    } else if a != [] {
      Cons(b[0], Insert(b[1..], t, key));
      if a[0] == b[0] { SubInsertLower(a[1..], b[1..], t, key); } else { SubInsertLower(a, b[1..], t, key); }
    }
  }

  lemma {:induction false} SubInsertBoth(a: seq<nat>, b: seq<nat>, t: nat, key: Key)
    requires Sub(a, b) && Known(a, key) && Ordered(b, key) && Known(b, key) && t in key && t !in b
    ensures Sub(Insert(a, t, key), Insert(b, t, key))
    decreases |b|
  {
    SubMembers(a, b);
    if b == [] || key[t] < key[b[0]] {
      if a != [] { assert a[0] in b; assert a[0] == b[0] || a[0] in b[1..]; }
      Cons(t, a);
      Cons(t, b);
    } else {
      Cons(b[0], Insert(b[1..], t, key));
      if a == [] {
        SubInsertBoth(a, b[1..], t, key);
      } else if a[0] == b[0] {
        Cons(a[0], Insert(a[1..], t, key));
        SubInsertBoth(a[1..], b[1..], t, key);
      } else {
        SubInsertBoth(a, b[1..], t, key);
        SubCons(Insert(a, t, key), b[0], Insert(b[1..], t, key));
      }
    }
  }

  /** A sublist that misses nothing is the whole list. */
  lemma {:induction false} SubFull(a: seq<nat>, b: seq<nat>)
    requires Sub(a, b) && Distinct(b) && forall x :: x in b ==> x in a
    ensures a == b
    decreases |b|
  {
    if b != [] {
      assert b[0] in a;
      if a[0] == b[0] {
        forall x | x in b[1..] ensures x in a[1..] { assert x in b; assert x in a && x != a[0]; }
        SubFull(a[1..], b[1..]);
      } else {
        SubMembers(a, b[1..]);
      }
    }
  }

  // ---------------------------------------------------- equals in order of arrival

  /** a before b: a smaller key, or the same one and born earlier. */
  ghost predicate Before(a: nat, b: nat, key: Key, born: Key) {
    && a in key && b in key && a in born && b in born
    && (key[a] < key[b] || (key[a] == key[b] && born[a] < born[b]))
  }

  /** Smallest key first, equal keys in order of birth. */
  ghost predicate InTurn(s: seq<nat>, key: Key, born: Key) {
    s == [] || ((forall x :: x in s[1..] ==> Before(s[0], x, key, born)) && InTurn(s[1..], key, born))
  }

  lemma {:induction false} InTurnFrame(s: seq<nat>, k: Key, b: Key, k': Key, b': Key)
    requires InTurn(s, k, b)
    requires forall t :: t in s ==> t in k' && t in b' && (t in k ==> k'[t] == k[t]) && (t in b ==> b'[t] == b[t])
    ensures InTurn(s, k', b')
  {
    if s != [] { InTurnFrame(s[1..], k, b, k', b'); }
  }

  lemma {:induction false} InTurnRemove(s: seq<nat>, t: nat, key: Key, born: Key)
    requires InTurn(s, key, born)
    ensures InTurn(Remove(s, t), key, born)
  {
    if s != [] && s[0] != t {
      InTurnRemove(s[1..], t, key, born);
      RemoveSubset(s[1..], t);
      Cons(s[0], Remove(s[1..], t));
    }
  }

  /** A newcomer goes behind its equals, which were all born before it. */
  lemma {:induction false} InTurnInsert(s: seq<nat>, t: nat, key: Key, born: Key)
    requires InTurn(s, key, born) && Known(s, key) && Ordered(s, key) && t in key && t in born
    requires forall x :: x in s ==> x in born && born[x] < born[t]
    ensures InTurn(Insert(s, t, key), key, born)
  {
    if s == [] || key[t] < key[s[0]] {
      Cons(t, s);
      forall x | x in s ensures Before(t, x, key, born) { assert x == s[0] || x in s[1..]; }
    } else {
      InTurnInsert(s[1..], t, key, born);
      Cons(s[0], Insert(s[1..], t, key));
      forall x | x in Insert(s[1..], t, key) ensures Before(s[0], x, key, born) { InsertMembers(s[1..], t, key, x); }
    }
  }

  lemma {:induction false} SubInTurn(a: seq<nat>, b: seq<nat>, key: Key, born: Key)
    requires Sub(a, b) && InTurn(b, key, born)
    ensures InTurn(a, key, born)
    decreases |b|
  {
    if a != [] {
      if a[0] == b[0] {
        SubInTurn(a[1..], b[1..], key, born);
        SubMembers(a[1..], b[1..]);
      } else {
        SubInTurn(a, b[1..], key, born);
      }
    }
  }

  lemma {:induction false} InTurnAt(s: seq<nat>, key: Key, born: Key, i: nat, j: nat)
    requires InTurn(s, key, born) && i < j < |s|
    ensures Before(s[i], s[j], key, born)
  {
    if i > 0 { InTurnAt(s[1..], key, born, i - 1, j - 1); } else { assert s[j] == s[1..][j - 1]; }
  }

  lemma {:induction false} InTurnOrdered(s: seq<nat>, key: Key, born: Key)
    requires InTurn(s, key, born) && Known(s, key)
    ensures Ordered(s, key)
  {
    if s != [] { InTurnOrdered(s[1..], key, born); }
  }
}
