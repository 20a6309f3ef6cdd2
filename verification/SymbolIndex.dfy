/**
 The prefix index of descriptor_database.h. Its comment argues that looking up the last key that is
 not above the name finds the one key that is the name or a parent of it; here is that proof.
 */
module SymbolIndex {

  /** std::string's order, character by character */
  predicate LessEq(a: string, b: string) {
    a == [] || (b != [] && (a[0] < b[0] || (a[0] == b[0] && LessEq(a[1..], b[1..]))))
  }

  predicate Less(a: string, b: string) { LessEq(a, b) && a != b }

  /** Equal, or super is a parent of sub: "foo.bar" of "foo.bar.baz", but not of "foo.barbaz" */
  predicate IsSubSymbol(sub: string, super: string) {
    sub == super || (super <= sub && sub[|super|] == '.')
  }

  predicate ValidCharacter(c: char) {
    c == '.' || '0' <= c <= '9' || 'A' <= c <= 'Z' || c == '_' || 'a' <= c <= 'z'
  }

  predicate ValidateSymbolName(name: string) {
    forall i | 0 <= i < |name| :: ValidCharacter(name[i])
  }

  /** The keys of by_symbol_ in the order of the map */
  predicate Sorted(keys: seq<string>) {
    forall i, j | 0 <= i < j < |keys| :: Less(keys[i], keys[j])
  }

  /** The invariant of by_symbol_: valid names, none a sub-symbol of another */
  predicate Index(keys: seq<string>) {
    && Sorted(keys)
    && (forall i | 0 <= i < |keys| :: ValidateSymbolName(keys[i]))
    && (forall i, j | 0 <= i < |keys| && 0 <= j < |keys| && i != j :: !IsSubSymbol(keys[i], keys[j]))
  }

  datatype Found = NotFound | At(index: nat)

  /** The number of keys that are less than or equal to the name: where upper_bound points */
  function UpperBound(keys: seq<string>, name: string): (n: nat)
    ensures n <= |keys|
  {
    if keys == [] || !LessEq(keys[0], name) then 0 else 1 + UpperBound(keys[1..], name)
  }

  function FindLastLessOrEqual(keys: seq<string>, name: string): (r: Found)
    ensures r.At? ==> r.index < |keys|
  {
    var n := UpperBound(keys, name);
    if n == 0 then NotFound else At(n - 1)
  }

  /** The two steps of the algorithm */
  function FindSymbol(keys: seq<string>, name: string): (r: Found)
    ensures r.At? ==> r.index < |keys|
  {
    var r := FindLastLessOrEqual(keys, name);
    if r.At? && IsSubSymbol(name, keys[r.index]) then r else NotFound
  }

  // ---- The order -------------------------------------------------------------------------------

  lemma {:induction false} Reflexive(a: string)
    ensures LessEq(a, a)
  {
    if a != [] { Reflexive(a[1..]); }
  }

  lemma {:induction false} Total(a: string, b: string)
    ensures LessEq(a, b) || LessEq(b, a)
  {
    if a != [] && b != [] { Total(a[1..], b[1..]); }
  }

  lemma {:induction false} Antisymmetric(a: string, b: string)
    requires LessEq(a, b) && LessEq(b, a)
    ensures a == b
  {
    if a != [] {
      Antisymmetric(a[1..], b[1..]);
      assert a == [a[0]] + a[1..] && b == [b[0]] + b[1..];
    }
  }

  lemma {:induction false} Transitive(a: string, b: string, c: string)
    requires LessEq(a, b) && LessEq(b, c)
    ensures LessEq(a, c)
  {
    if a != [] && a[0] == b[0] == c[0] { Transitive(a[1..], b[1..], c[1..]); }
  }

  /** Step 3: a prefix is not above what it is a prefix of. */
  lemma {:induction false} PrefixIsBelow(a: string, b: string)
    requires a <= b
    ensures LessEq(a, b)
  {
    if a != [] { PrefixIsBelow(a[1..], b[1..]); }
  }

  lemma TailsDiffer(a: string, b: string)
    requires a != [] && b != [] && a[0] == b[0] && a != b
    ensures a[1..] != b[1..]
  {
  }

  /** Step 7: between a parent and a sub-symbol of it lie only names that go on with '.' or a lower character. */
  lemma {:induction false} Between(parent: string, found: string, search: string)
    requires LessEq(parent, found) && LessEq(found, search)
    requires parent <= search && |parent| < |search| && search[|parent|] == '.'
    requires parent != found
    ensures parent <= found && |parent| < |found| && found[|parent|] <= '.'
    decreases parent
  {
    if parent != [] {
      assert found != [] && parent[0] == found[0] == search[0];
      TailsDiffer(parent, found);
      Between(parent[1..], found[1..], search[1..]);
      assert forall i | 0 <= i < |parent| :: parent[i] == found[i] by {
        assert forall i | 0 < i < |parent| :: parent[i] == parent[1..][i - 1] == found[1..][i - 1] == found[i];
      }
    }
  }

  /** Step 8: a valid name between a parent and a sub-symbol of it is itself a sub-symbol of the parent. */
  lemma {:induction false} BetweenIsSubSymbol(parent: string, found: string, search: string)
    requires LessEq(parent, found) && LessEq(found, search) && parent != found
    requires IsSubSymbol(search, parent) && ValidateSymbolName(found)
    ensures IsSubSymbol(found, parent)
  {
    if search == parent {
      Antisymmetric(parent, found);
    } else {
      Between(parent, found, search);
      assert ValidCharacter(found[|parent|]);
    }
  }

  // ---- The lookup --------------------------------------------------------------------------------

  lemma {:induction false} UpperBoundSplits(keys: seq<string>, name: string)
    requires Sorted(keys)
    ensures forall i | 0 <= i < |keys| :: i < UpperBound(keys, name) <==> LessEq(keys[i], name)
  {
    if keys != [] {
      if LessEq(keys[0], name) {
        UpperBoundSplits(keys[1..], name);
        assert forall i | 0 < i < |keys| :: keys[i] == keys[1..][i - 1];
      } else {
        forall i | 0 <= i < |keys|
          ensures !LessEq(keys[i], name)
        {
          if LessEq(keys[i], name) && i > 0 {
            Transitive(keys[0], keys[i], name);
          }
        }
      }
    }
  }

  /** It is the greatest key that is not above the name. */
  lemma LastLessOrEqual(keys: seq<string>, name: string)
    requires Sorted(keys)
    ensures match FindLastLessOrEqual(keys, name)
            case NotFound => forall i | 0 <= i < |keys| :: !LessEq(keys[i], name)
            case At(f) => LessEq(keys[f], name) && forall i | 0 <= i < |keys| && LessEq(keys[i], name) :: LessEq(keys[i], keys[f])
  {
    UpperBoundSplits(keys, name);
    var r := FindLastLessOrEqual(keys, name);
    if r.At? {
      forall i | 0 <= i < |keys| && LessEq(keys[i], name)
        ensures LessEq(keys[i], keys[r.index])
      {
        if i == r.index { Reflexive(keys[i]); }
      }
    }
  }

  /** If some key matches the name, the key found is that one. */
  lemma MatchIsFound(keys: seq<string>, name: string, m: nat)
    requires Index(keys) && m < |keys| && IsSubSymbol(name, keys[m])
    ensures FindLastLessOrEqual(keys, name) == At(m)
  {
    LastLessOrEqual(keys, name);
    var key := keys[m];
    if name == key { Reflexive(key); } else { PrefixIsBelow(key, name); }
    var f := FindLastLessOrEqual(keys, name).index;
    if f != m {
      assert LessEq(key, keys[f]) && key != keys[f] by {
        assert Less(keys[if f < m then f else m], keys[if f < m then m else f]);
      }
      BetweenIsSubSymbol(key, keys[f], name);
    }
  }

  /**
   The lookup answers with a key exactly when the name is a key or a sub-symbol of one, and there is
   only one such key; the name itself may be any string.
   */
  lemma LookupIsCompleteAndUnique(keys: seq<string>, name: string)
    requires Index(keys)
    ensures forall m | 0 <= m < |keys| :: FindSymbol(keys, name) == At(m) <==> IsSubSymbol(name, keys[m])
    ensures FindSymbol(keys, name) == NotFound <==> forall m | 0 <= m < |keys| :: !IsSubSymbol(name, keys[m])
  {
    forall m | 0 <= m < |keys| && IsSubSymbol(name, keys[m])
      ensures FindSymbol(keys, name) == At(m)
    {
      MatchIsFound(keys, name, m);
    }
  }

  /** A key answers for itself and for whatever goes on behind it with a dot, and for nothing else. */
  lemma LookupByDots(keys: seq<string>, m: nat, c: char, rest: string, name: string)
    requires Index(keys) && m < |keys|
    ensures FindSymbol(keys, keys[m]) == At(m)
    ensures FindSymbol(keys, keys[m] + [c] + rest) == At(m) <==> c == '.'
    ensures FindSymbol(keys, name) == At(m) ==> name == keys[m] || exists tail :: name == keys[m] + "." + tail
  {
    hide FindSymbol, Index;
    var longer := keys[m] + [c] + rest;
    LookupIsCompleteAndUnique(keys, keys[m]);
    LookupIsCompleteAndUnique(keys, longer);
    LookupIsCompleteAndUnique(keys, name);
    assert longer[..|keys[m]|] == keys[m] && longer[|keys[m]|] == c;
    if IsSubSymbol(name, keys[m]) && name != keys[m] {
      assert name == keys[m] + "." + name[|keys[m]| + 1..];
    }
  }

  // ---- Adding a name ------------------------------------------------------------------------------

  /** Adds a valid name unless one of its two neighbours conflicts with it; answers whether it was added. */
  function AddSymbol(keys: seq<string>, name: string): (seq<string>, bool) {
    var n := UpperBound(keys, name);
    if !ValidateSymbolName(name) then (keys, false)
    else if n > 0 && IsSubSymbol(name, keys[n - 1]) then (keys, false)
    else if n < |keys| && IsSubSymbol(keys[n], name) then (keys, false)
    else (Insert(keys, name, n), true)
  }

  ghost predicate Conflicts(keys: seq<string>, name: string) {
    exists i :: 0 <= i < |keys| && (IsSubSymbol(name, keys[i]) || IsSubSymbol(keys[i], name))
  }

  lemma NeighboursSuffice(keys: seq<string>, name: string, i: nat)
    requires Index(keys) && ValidateSymbolName(name) && i < |keys|
    requires IsSubSymbol(name, keys[i]) || IsSubSymbol(keys[i], name)
    ensures !AddSymbol(keys, name).1
  {
    var n := UpperBound(keys, name);
    UpperBoundSplits(keys, name);
    if IsSubSymbol(name, keys[i]) {
      MatchIsFound(keys, name, i);
    } else {
      // a proper sub-symbol is above the name, and so the first key above the name is one too
      PrefixIsBelow(name, keys[i]);
      if i < n { Antisymmetric(name, keys[i]); }
      if i != n {
        Total(name, keys[n]);
        Reflexive(name);
        assert Less(keys[n], keys[i]);
        BetweenIsSubSymbol(name, keys[n], keys[i]);
      }
    }
  }

  /** Looking at two neighbours is enough: a name is added exactly when it is valid and conflicts with no key, and the invariant stays. */
  lemma AddSymbolKeepsIndex(keys: seq<string>, name: string)
    requires Index(keys)
    ensures var (keys', ok) := AddSymbol(keys, name);
            && Index(keys')
            && (ok <==> ValidateSymbolName(name) && !Conflicts(keys, name))
            && (forall k :: k in keys' <==> k in keys || (ok && k == name))
  {
    var n := UpperBound(keys, name);
    UpperBoundSplits(keys, name);
    var (keys', ok) := AddSymbol(keys, name);
    if ValidateSymbolName(name) && Conflicts(keys, name) {
      var i :| 0 <= i < |keys| && (IsSubSymbol(name, keys[i]) || IsSubSymbol(keys[i], name));
      NeighboursSuffice(keys, name, i);
    }
    if ok {
      InsertedLength(keys, name, n);
      InsertedKeepsIndex(keys, name, n);
    }
  }

  function Insert(keys: seq<string>, name: string, n: nat): (r: seq<string>)
    requires n <= |keys|
  {
    keys[..n] + [name] + keys[n..]
  }

  /** Where each name of the longer list comes from */
  lemma InsertedAt(keys: seq<string>, name: string, n: nat, i: nat)
    requires n <= |keys| && i <= |keys|
    ensures Insert(keys, name, n)[i] == if i < n then keys[i] else if i == n then name else keys[i - 1]
  {
  }

  lemma InsertedKeepsIndex(keys: seq<string>, name: string, n: nat)
    requires Index(keys) && ValidateSymbolName(name) && n <= |keys| && !Conflicts(keys, name)
    requires forall i | 0 <= i < |keys| :: i < n <==> LessEq(keys[i], name)
    ensures Index(Insert(keys, name, n))
  {
    forall i | 0 <= i < |keys|
      ensures !IsSubSymbol(name, keys[i]) && !IsSubSymbol(keys[i], name)
      ensures if i < n then Less(keys[i], name) else Less(name, keys[i])
    {
      Total(name, keys[i]);
    }
    hide Less, LessEq, IsSubSymbol, ValidateSymbolName, Insert;
    var keys' := Insert(keys, name, n);
    InsertedLength(keys, name, n);
    forall i, j | 0 <= i < |keys'| && 0 <= j < |keys'| && i != j
      ensures ValidateSymbolName(keys'[i]) && !IsSubSymbol(keys'[i], keys'[j]) && (i < j ==> Less(keys'[i], keys'[j]))
    {
      InsertedAt(keys, name, n, i);
      InsertedAt(keys, name, n, j);
    }
    InsertedAt(keys, name, n, n);
    forall i | 0 <= i < |keys'| ensures ValidateSymbolName(keys'[i]) { InsertedAt(keys, name, n, i); }
  }

  lemma InsertedLength(keys: seq<string>, name: string, n: nat)
    requires n <= |keys|
    ensures |Insert(keys, name, n)| == |keys| + 1
    ensures forall k :: k in Insert(keys, name, n) <==> k in keys || k == name
  {
  }
}
