/** `SPtrMap<T>`: a dictionary from object names to shared pointers, each
    entry stamped with the value of a version counter that every `set`
    increments. Names are normalised before use: surrounding blanks are
    removed, letters are upper-cased, and empty names or names with inner
    blanks are refused. */
module ObjectRegistry {
  import opened Wrappers
  import opened CStrings

  /** The two exceptions of `processName`. */
  datatype NameError = EmptyName | BlankInName

  /** `isspace` in the C locale: blank, tab, newline, vertical tab, form feed, carriage return. */
  predicate IsSpace(c: char)
  {
    c == ' ' || '\t' <= c <= '\r'
  }

  /** `toupper` in the C locale: only the letters `a` to `z` change. */
  function ToUpper(c: char): (u: char)
    ensures IsSpace(u) <==> IsSpace(c)
    ensures !('a' <= u <= 'z')
  {
    if 'a' <= c <= 'z' then (c as int - 32) as char else c
  }

  function Upper(s: string): (r: string)
    ensures |r| == |s|
  {
    seq(|s|, i requires 0 <= i < |s| => ToUpper(s[i]))
  }

  predicate HasSpace(s: string)
  {
    exists i :: 0 <= i < |s| && IsSpace(s[i])
  }

  predicate AllSpace(s: string)
  {
    forall i :: 0 <= i < |s| ==> IsSpace(s[i])
  }

  function TrimStart(s: string): (r: string)
    decreases |s|
  {
    if s != [] && IsSpace(s[0]) then TrimStart(s[1..]) else s
  }

  function TrimEnd(s: string): (r: string)
    decreases |s|
  {
    if s != [] && IsSpace(s[|s| - 1]) then TrimEnd(s[..|s| - 1]) else s
  }

  /** `trim`: the name without its leading and trailing blanks. */
  function Trim(s: string): string
  {
    TrimEnd(TrimStart(s))
  }

  /** What `processName` returns or throws for a name. */
  function NormalisedName(name: string): Result<string, NameError>
  {
    var ret := Trim(name);
    if ret == [] then Failure(EmptyName)
    else if HasSpace(Upper(ret)) then Failure(BlankInName)
    else Success(Upper(ret))
  }

  // ---- trimming

  lemma {:induction false} TrimStartFirst(s: string)
    ensures TrimStart(s) == [] || !IsSpace(TrimStart(s)[0])
    decreases |s|
  {
    if s != [] && IsSpace(s[0]) {
      TrimStartFirst(s[1..]);
    }
  }

  lemma {:induction false} TrimEndLast(s: string)
    ensures TrimEnd(s) == [] || !IsSpace(TrimEnd(s)[|TrimEnd(s)| - 1])
    decreases |s|
  {
    if s != [] && IsSpace(s[|s| - 1]) {
      TrimEndLast(s[..|s| - 1]);
    }
  }

  lemma {:induction false} TrimEndPrefix(s: string)
    ensures |TrimEnd(s)| <= |s| && TrimEnd(s) == s[..|TrimEnd(s)|]
    decreases |s|
  {
    if s != [] && IsSpace(s[|s| - 1]) {
      var init := s[..|s| - 1];
      TrimEndPrefix(init);
      assert init[..|TrimEnd(init)|] == s[..|TrimEnd(init)|];
    }
  }

  /** A trimmed name neither starts nor ends with a blank. */
  lemma TrimmedEnds(s: string)
    ensures Trim(s) == [] || (!IsSpace(Trim(s)[0]) && !IsSpace(Trim(s)[|Trim(s)| - 1]))
  {
    var a := TrimStart(s);
    TrimStartFirst(s);
    TrimEndLast(a);
    TrimEndPrefix(a);
    if Trim(s) != [] {
      assert Trim(s)[0] == a[0];
    }
  }

  lemma {:induction false} AllSpaceTrimStart(s: string)
    ensures AllSpace(TrimStart(s)) <==> AllSpace(s)
    decreases |s|
  {
    if s != [] && IsSpace(s[0]) {
      AllSpaceTrimStart(s[1..]);
      AllSpaceTail(s);
    }
  }

  lemma AllSpaceTail(s: string)
    requires s != [] && IsSpace(s[0])
    ensures AllSpace(s[1..]) <==> AllSpace(s)
  {
    if AllSpace(s[1..]) {
      forall i | 0 < i < |s| ensures IsSpace(s[i]) {
        assert s[i] == s[1..][i - 1];
      }
    }
  }

  lemma {:induction false} TrimEndEmpty(s: string)
    ensures TrimEnd(s) == [] <==> AllSpace(s)
    decreases |s|
  {
    if s != [] && IsSpace(s[|s| - 1]) {
      var init := s[..|s| - 1];
      TrimEndEmpty(init);
      if AllSpace(init) {
        forall i | 0 <= i < |s| ensures IsSpace(s[i]) {
          if i < |init| { assert s[i] == init[i]; }
        }
      }
    } else if s != [] {
      assert !IsSpace(s[|s| - 1]);
    }
  }

  lemma {:induction false} TrimStartOfPadded(p: string, s: string)
    requires AllSpace(p)
    ensures TrimStart(p + s) == TrimStart(s)
    decreases |p|
  {
    if p != [] {
      assert (p + s)[1..] == p[1..] + s;
      TrimStartOfPadded(p[1..], s);
    } else {
      assert p + s == s;
    }
  }

  lemma {:induction false} TrimEndOfPadded(s: string, q: string)
    requires AllSpace(q)
    ensures TrimEnd(s + q) == TrimEnd(s)
    decreases |q|
  {
    if q != [] {
      var init := q[..|q| - 1];
      assert (s + q)[..|s + q| - 1] == s + init;
      TrimEndOfPadded(s, init);
    } else {
      assert s + q == s;
    }
  }

  /** Trailing text after a part that does not trim away survives `TrimStart`. */
  lemma {:induction false} TrimStartAppend(s: string, q: string)
    requires !AllSpace(s)
    ensures TrimStart(s + q) == TrimStart(s) + q
    decreases |s|
  {
    if IsSpace(s[0]) {
      assert (s + q)[1..] == s[1..] + q;
      var i :| 0 <= i < |s| && !IsSpace(s[i]);
      assert s[1..][i - 1] == s[i];
      TrimStartAppend(s[1..], q);
    }
  }

  lemma {:induction false} TrimStartAllSpace(s: string)
    requires AllSpace(s)
    ensures TrimStart(s) == []
    decreases |s|
  {
    if s != [] {
      assert AllSpace(s[1..]) by {
        forall i | 0 <= i < |s[1..]| ensures IsSpace(s[1..][i]) {
          assert s[1..][i] == s[i + 1];
        }
      }
      TrimStartAllSpace(s[1..]);
    }
  }

  /** Blanks around a name do not change its trimmed form. */
  lemma TrimOfPadded(p: string, s: string, q: string)
    requires AllSpace(p) && AllSpace(q)
    ensures Trim(p + s + q) == Trim(s)
  {
    assert p + s + q == p + (s + q);
    TrimStartOfPadded(p, s + q);
    if AllSpace(s) {
      assert AllSpace(s + q) by {
        forall i | 0 <= i < |s + q| ensures IsSpace((s + q)[i]) {
          if i >= |s| { assert (s + q)[i] == q[i - |s|]; }
        }
      }
      TrimStartAllSpace(s + q);
      TrimStartAllSpace(s);
    } else {
      TrimStartAppend(s, q);
      TrimEndOfPadded(TrimStart(s), q);
    }
  }

  lemma {:induction false} TrimStartUpper(s: string)
    ensures TrimStart(Upper(s)) == Upper(TrimStart(s))
    decreases |s|
  {
    if s != [] && IsSpace(s[0]) {
      assert Upper(s)[1..] == Upper(s[1..]);
      TrimStartUpper(s[1..]);
    }
  }

  lemma {:induction false} TrimEndUpper(s: string)
    ensures TrimEnd(Upper(s)) == Upper(TrimEnd(s))
    decreases |s|
  {
    if s != [] && IsSpace(s[|s| - 1]) {
      assert Upper(s)[..|s| - 1] == Upper(s[..|s| - 1]);
      TrimEndUpper(s[..|s| - 1]);
    }
  }

  lemma UpperIdempotent(s: string)
    ensures Upper(Upper(s)) == Upper(s)
  {
  }

  // ---- processName

  /** A name trims to nothing exactly when it is all blanks. */
  lemma TrimEmpty(name: string)
    ensures Trim(name) == [] <==> AllSpace(name)
  {
    TrimEndEmpty(TrimStart(name));
    AllSpaceTrimStart(name);
  }

  lemma HasSpaceUpper(s: string)
    ensures HasSpace(Upper(s)) <==> HasSpace(s)
  {
    if HasSpace(s) {
      var j :| 0 <= j < |s| && IsSpace(s[j]);
      assert IsSpace(Upper(s)[j]);
    }
  }

  /** `processName` fails exactly on names that are empty once trimmed, or
      that have a blank inside; otherwise it returns the trimmed name upper-cased. */
  lemma NormalisedNameCases(name: string)
    ensures NormalisedName(name) == Failure(EmptyName) <==> AllSpace(name)
    ensures NormalisedName(name) == Failure(BlankInName) <==> !AllSpace(name) && HasSpace(Trim(name))
    ensures NormalisedName(name).Success? <==> !AllSpace(name) && !HasSpace(Trim(name))
    ensures NormalisedName(name).Success? ==> NormalisedName(name).value == Upper(Trim(name))
  {
    TrimEmpty(name);
    HasSpaceUpper(Trim(name));
  }

  /** A processed name is non-empty, blank-free and has no lower-case letters. */
  lemma NormalisedNameShape(name: string)
    requires NormalisedName(name).Success?
    ensures var nm := NormalisedName(name).value;
      nm != [] && !HasSpace(nm) && forall i :: 0 <= i < |nm| ==> !('a' <= nm[i] <= 'z')
  {
  }

  /** Processing an already processed name gives it back. */
  lemma NormalisedNameIdempotent(name: string)
    requires NormalisedName(name).Success?
    ensures NormalisedName(NormalisedName(name).value) == NormalisedName(name)
  {
    var nm := NormalisedName(name).value;
    assert TrimStart(nm) == nm by {
      assert nm[0] == ToUpper(Trim(name)[0]);
    }
    assert TrimEnd(nm) == nm by {
      assert nm[|nm| - 1] == ToUpper(Trim(name)[|nm| - 1]);
    }
    UpperIdempotent(Trim(name));
  }

  /** Names that agree up to the case of their letters are the same key. */
  lemma NormalisedNameIgnoresCase(a: string, b: string)
    requires Upper(a) == Upper(b)
    ensures NormalisedName(a) == NormalisedName(b)
  {
    forall s | true ensures Upper(Trim(s)) == Trim(Upper(s)) {
      TrimStartUpper(s);
      TrimEndUpper(TrimStart(s));
    }
    forall s | true ensures Trim(s) == [] <==> Upper(Trim(s)) == [] {
    }
    UpperIdempotent(Trim(a));
    UpperIdempotent(Trim(b));
    assert Upper(Trim(a)) == Upper(Trim(b));
  }

  /** Blanks around a name are ignored. */
  lemma NormalisedNameIgnoresPadding(p: string, name: string, q: string)
    requires AllSpace(p) && AllSpace(q)
    ensures NormalisedName(p + name + q) == NormalisedName(name)
  {
    TrimOfPadded(p, name, q);
  }

  /** The lookup of `" abc "` and the store under `"ABC"` use the same key. */
  lemma PaddedLowerCaseExample()
    ensures NormalisedName(" abc ") == NormalisedName("ABC") == Success("ABC")
  {
    NormalisedNameIgnoresPadding(" ", "abc", " ");
    assert " " + "abc" + " " == " abc ";
    NormalisedNameIgnoresCase("abc", "ABC");
    assert Upper("ABC") == "ABC";
    assert TrimStart("ABC") == "ABC";
    assert TrimEnd("ABC") == "ABC";
  }

  // ---- key order

  /** `std::string`'s `operator<`: lexicographic order of the characters. */
  predicate StrLess(a: string, b: string)
    decreases |a|
  {
    if a == [] then b != []
    else if b == [] then false
    else if a[0] < b[0] then true
    else a[0] == b[0] && StrLess(a[1..], b[1..])
  }

  lemma {:induction false} StrLessIrreflexive(a: string)
    ensures !StrLess(a, a)
    decreases |a|
  {
    if a != [] {
      StrLessIrreflexive(a[1..]);
    }
  }

  lemma {:induction false} StrLessTransitive(a: string, b: string, c: string)
    requires StrLess(a, b) && StrLess(b, c)
    ensures StrLess(a, c)
    decreases |a|
  {
    if a != [] && a[0] == b[0] && b[0] == c[0] {
      StrLessTransitive(a[1..], b[1..], c[1..]);
    }
  }

  lemma {:induction false} StrLessTotal(a: string, b: string)
    ensures a == b || StrLess(a, b) || StrLess(b, a)
    decreases |a|
  {
    if a != [] && b != [] && a[0] == b[0] {
      StrLessTotal(a[1..], b[1..]);
      if a[1..] == b[1..] {
        assert a == [a[0]] + a[1..] && b == [b[0]] + b[1..];
      }
    }
  }

  lemma StrLessBelow(a: string, b: string, c: string)
    requires StrLess(b, c)
    ensures StrLess(a, b) ==> StrLess(a, c)
  {
    if StrLess(a, b) {
      StrLessTransitive(a, b, c);
    }
  }

  predicate IsLeast(k: string, s: set<string>)
  {
    k in s && forall y :: y in s ==> !StrLess(y, k)
  }

  /** Every non-empty finite set of keys has a least element. */
  lemma {:induction false} LeastExists(s: set<string>)
    requires s != {}
    ensures exists k :: IsLeast(k, s)
    decreases |s|
  {
    var x :| x in s;
    if s == {x} {
      StrLessIrreflexive(x);
      assert IsLeast(x, s);
    } else {
      LeastExists(s - {x});
      var k :| IsLeast(k, s - {x});
      StrLessTotal(x, k);
      if StrLess(x, k) {
        StrLessIrreflexive(x);
        forall y | y in s ensures !StrLess(y, x) {
          if y != x {
            assert y in s - {x};
            StrLessBelow(y, x, k);
          }
        }
        StrLessIrreflexive(x);
        assert IsLeast(x, s);
      } else {
        assert IsLeast(k, s);
      }
    }
  }

  /** Strictly ascending: the iteration order of a `std::map`. */
  predicate Ascending(s: seq<string>)
  {
    forall i, j :: 0 <= i < j < |s| ==> StrLess(s[i], s[j])
  }

  /** An ascending list has no repeated key, so it is as long as its set. */
  lemma {:induction false} AscendingDistinct(s: seq<string>)
    requires Ascending(s)
    ensures |set k | k in s| == |s|
    decreases |s|
  {
    if s != [] {
      var init := s[..|s| - 1];
      AscendingDistinct(init);
      assert s[|s| - 1] !in init by {
        forall i | 0 <= i < |init| ensures init[i] != s[|s| - 1] {
          StrLessIrreflexive(init[i]);
        }
      }
      assert (set k | k in s) == (set k | k in init) + {s[|s| - 1]} by {
        assert s == init + [s[|s| - 1]];
      }
    }
  }

  // ---- the dictionary

  /** `pair_type`: the pointer and its version; a missing entry reads as a
      null pointer with version 0. */
  datatype Entry<T> = Entry(ptr: Option<T>, version: nat)

  /** The entries after `set` stores `e` under the processed name `nm`:
      `remove_pair` erases the entry under `nm.c_str()`, the text before the
      first NUL, and `insert` then adds `e` under the full `nm` unless an
      entry is still stored there. For a NUL-free name this replaces the
      entry under `nm`; for a name with a NUL it erases the entry of the
      prefix and keeps one already stored under the full name. */
  function Stored<T>(entries: map<string, Entry<T>>, nm: string, e: Entry<T>): (m: map<string, Entry<T>>)
    ensures '\0' !in nm ==> m == entries[nm := e]
    ensures '\0' in nm ==>
              CStr(nm) !in m && nm in m && m[nm] == (if nm in entries then entries[nm] else e)
    ensures forall k :: k != nm && k != CStr(nm) ==>
              (k in m <==> k in entries) && (k in m ==> m[k] == entries[k])
  {
    CStrPrefix(nm);
    var rest := entries - {CStr(nm)};
    if nm in rest then rest else rest[nm := e]
  }

  /** Storing under a name holding a NUL erases the entry of the prefix
      before it: with `"A"` stored, `set("A\0B", q)` leaves only `"A\0B"`. */
  lemma NulNameErasesPrefix<T>(p: T, q: T)
    ensures Stored(map["A" := Entry(Some(p), 1)], "A\0B", Entry(Some(q), 2))
         == map["A\0B" := Entry(Some(q), 2)]
  {
    assert CStr("A\0B") == "A" by {
      assert "A\0B"[1..] == "\0B";
    }
  }

  /** Storing again under a name holding a NUL keeps the old entry: the
      prefix is not stored, so nothing is erased and `insert` does not
      overwrite. */
  lemma NulNameKeepsEntry<T>(p: T, q: T)
    ensures Stored(map["A\0B" := Entry(Some(p), 1)], "A\0B", Entry(Some(q), 2))
         == map["A\0B" := Entry(Some(p), 1)]
  {
    assert CStr("A\0B") == "A" by {
      assert "A\0B"[1..] == "\0B";
    }
  }

  class SPtrMap<T> {
    /** The entries of the underlying `std::map`. */
    var entries: map<string, Entry<T>>
    /** `ver_`: the version given to the latest `set`. */
    var ver: nat

    /** Every key is a processed name, and every entry carries a version
        between 1 and the counter. */
    ghost predicate Valid()
      reads this
    {
      forall k :: k in entries ==> NormalisedName(k) == Success(k) && 1 <= entries[k].version <= ver
    }

    /** An empty map; the counter starts at whatever `initialVersion` is. */
    constructor (initialVersion: nat)
      ensures Valid() && entries == map[] && ver == initialVersion
    {
      entries := map[];
      ver := initialVersion;
    }

    /** `processName`: trims the name, refuses it when empty, upper-cases it
        letter by letter and refuses it when a blank remains inside. */
    static method ProcessName(name: string) returns (r: Result<string, NameError>)
      ensures r == NormalisedName(name)
    {
      var ret := Trim(name);
      if |ret| == 0 {
        return Failure(EmptyName);
      }
      var buf := new char[|ret|](i requires 0 <= i < |ret| => ret[i]);
      var i := 0;
      while i < buf.Length
        invariant 0 <= i <= buf.Length
        invariant forall k :: 0 <= k < i ==> buf[k] == ToUpper(ret[k])
        invariant forall k :: i <= k < buf.Length ==> buf[k] == ret[k]
      {
        buf[i] := ToUpper(buf[i]);
        i := i + 1;
      }
      assert buf[..] == Upper(ret);
      var b := 0;
      while b < buf.Length && !IsSpace(buf[b])
        invariant 0 <= b <= buf.Length
        invariant forall k :: 0 <= k < b ==> !IsSpace(buf[k])
      {
        b := b + 1;
      }
      if b != buf.Length {
        assert IsSpace(Upper(ret)[b]);
        return Failure(BlankInName);
      }
      return Success(buf[..]);
    }

    /** `get_pair`: the entry found by `find(nm.c_str())`, that is under the
        processed name up to its first NUL; version 0 means there is none. */
    function GetPair(nm: string): (e: Entry<T>)
      requires Valid()
      reads this
      ensures e.version <= ver
      ensures e.version == 0 <==> CStr(nm) !in entries
      ensures CStr(nm) !in entries ==> e.ptr == None
      ensures CStr(nm) in entries ==> e == entries[CStr(nm)]
    {
      if CStr(nm) in entries then entries[CStr(nm)] else Entry(None, 0)
    }

    /** `remove_pair`: erases the entry found by `find(nm.c_str())` and tells
        whether there was one. */
    method RemovePair(nm: string) returns (found: bool)
      modifies this
      ensures found == (CStr(nm) in old(entries))
      ensures entries == old(entries) - {CStr(nm)} && ver == old(ver)
    {
      var key := CStr(nm);
      if key !in entries {
        return false;
      }
      entries := entries - {key};
      return true;
    }

    /** `list`: the stored names in the order a `std::map` visits them. */
    method List() returns (lst: seq<string>)
      ensures Ascending(lst)
      ensures forall k :: k in lst <==> k in entries
      ensures |lst| == |entries|
    {
      lst := [];
      var rest := entries.Keys;
      while rest != {}
        invariant rest <= entries.Keys
        invariant forall k :: k in lst <==> k in entries && k !in rest
        invariant Ascending(lst)
        invariant forall i, y :: 0 <= i < |lst| && y in rest ==> StrLess(lst[i], y)
        decreases |rest|
      {
        LeastExists(rest);
        var k :| IsLeast(k, rest);
        forall i, y | 0 <= i < |lst| + 1 && y in rest - {k} ensures StrLess((lst + [k])[i], y) {
          StrLessTotal(k, y);
          if i < |lst| {
            assert StrLess(lst[i], y);
          }
        }
        lst := lst + [k];
        rest := rest - {k};
      }
      AscendingDistinct(lst);
      assert (set k | k in lst) == entries.Keys;
    }

    /** `contains`: whether an entry exists under the processed name. */
    method Contains(name: string) returns (r: Result<bool, NameError>)
      ensures r.Failure? <==> NormalisedName(name).Failure?
      ensures r.Failure? ==> r.error == NormalisedName(name).error
      ensures r.Success? ==> r.value == (NormalisedName(name).value in entries)
    {
      var nm := ProcessName(name);
      if nm.Failure? {
        return Failure(nm.error);
      }
      return Success(nm.value in entries);
    }

    /** `get`: the pointer `get_pair` finds for the processed name, null
        when there is none. */
    method Get(name: string) returns (r: Result<Option<T>, NameError>)
      requires Valid()
      ensures r.Failure? <==> NormalisedName(name).Failure?
      ensures r.Failure? ==> r.error == NormalisedName(name).error
      ensures r.Success? ==>
                var key := CStr(NormalisedName(name).value);
                (key !in entries ==> r.value == None) && (key in entries ==> r.value == entries[key].ptr)
    {
      var nm := ProcessName(name);
      if nm.Failure? {
        return Failure(nm.error);
      }
      return Success(GetPair(nm.value).ptr);
    }

    /** `version`: the version `get_pair` finds for the processed name, 0
        when there is none. */
    method Version(name: string) returns (r: Result<nat, NameError>)
      requires Valid()
      ensures r.Failure? <==> NormalisedName(name).Failure?
      ensures r.Failure? ==> r.error == NormalisedName(name).error
      ensures r.Success? ==>
                var key := CStr(NormalisedName(name).value);
                r.value <= ver && (r.value == 0 <==> key !in entries) &&
                (key in entries ==> r.value == entries[key].version)
    {
      var nm := ProcessName(name);
      if nm.Failure? {
        return Failure(nm.error);
      }
      return Success(GetPair(nm.value).version);
    }

    /** `set`: removes what `remove_pair` finds for the processed name,
        inserts the pointer stamped with the incremented counter (unless an
        entry is still stored under the name) and returns the name and that
        version; an invalid name throws before anything changes. */
    method Set(name: string, sp: Option<T>) returns (r: Result<(string, nat), NameError>)
      requires Valid()
      modifies this
      ensures Valid()
      ensures r.Failure? <==> NormalisedName(name).Failure?
      ensures r.Failure? ==> r.error == NormalisedName(name).error && entries == old(entries) && ver == old(ver)
      ensures r.Success? ==>
                var nm := NormalisedName(name).value;
                r.value == (nm, ver) && ver == old(ver) + 1 &&
                entries == Stored(old(entries), nm, Entry(sp, ver))
    {
      var nm := ProcessName(name);
      if nm.Failure? {
        return Failure(nm.error);
      }
      var _ := RemovePair(nm.value);
      ver := ver + 1;
      if nm.value !in entries {
        entries := entries[nm.value := Entry(sp, ver)];
      }
      NormalisedNameIdempotent(name);
      return Success((nm.value, ver));
    }

    /** `clear`: empties the map and resets the counter. */
    method Clear()
      modifies this
      ensures Valid() && entries == map[] && ver == 0
    {
      entries := map[];
      ver := 0;
    }
  }

  /** After `set` under a NUL-free name, or a name not yet stored, the new
      entry's version exceeds that of every other entry, so of two
      successive such `set`s the second returns the larger version. */
  lemma SetStampsNewest<T>(entries: map<string, Entry<T>>, ver: nat, nm: string, sp: Option<T>)
    requires forall k :: k in entries ==> entries[k].version <= ver
    requires '\0' !in nm || nm !in entries
    ensures var after := Stored(entries, nm, Entry(sp, ver + 1));
      nm in after && after[nm] == Entry(sp, ver + 1) &&
      forall k :: k in after && k != nm ==> after[k].version < after[nm].version
  {
  }
}
