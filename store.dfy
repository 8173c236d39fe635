/** The credential store: the `std::map<String, String>` from SSID to
    passphrase that WiFiPicker keeps in `_ssids`. A `std::map` holds one value
    per key and iterates in ascending key order, so it is modelled as a
    sequence of credentials strictly sorted by SSID, with `View` giving the
    map it stands for. */
module Store {
  import opened Lex

  datatype Credential = Credential(ssid: string, pass: string)

  /** Strictly ascending SSIDs: the iteration order of a `std::map`. */
  predicate Sorted(s: seq<Credential>)
  {
    forall i, j :: 0 <= i < j < |s| ==> Below(s[i].ssid, s[j].ssid)
  }

  /** The map a sequence of credentials stands for. */
  function View(s: seq<Credential>): map<string, string>
  {
    if s == [] then map[] else View(s[1..])[s[0].ssid := s[0].pass]
  }

  /** The SSIDs in iteration order. */
  function Keys(s: seq<Credential>): (r: seq<string>)
    ensures |r| == |s| && forall i :: 0 <= i < |s| ==> r[i] == s[i].ssid
  {
    if s == [] then [] else [s[0].ssid] + Keys(s[1..])
  }

  lemma {:induction false} ViewKeys(s: seq<Credential>, k: string)
    ensures k in View(s) <==> k in Keys(s)
  {
    if s != [] {
      ViewKeys(s[1..], k);
      assert Keys(s) == [s[0].ssid] + Keys(s[1..]);
    }
  }

  /** Every entry of a sorted store is found in its map view. */
  lemma {:induction false} ViewAt(s: seq<Credential>, i: nat)
    requires Sorted(s) && i < |s|
    ensures s[i].ssid in View(s) && View(s)[s[i].ssid] == s[i].pass
  {
    if i > 0 {
      ViewAt(s[1..], i - 1);
      assert Below(s[0].ssid, s[i].ssid);
      BelowIrreflexive(s[0].ssid);
    }
  }

  /** The first SSID of a sorted store occurs nowhere else in it. */
  lemma HeadNotInTail(s: seq<Credential>)
    requires Sorted(s) && s != []
    ensures s[0].ssid !in View(s[1..])
  {
    ViewKeys(s[1..], s[0].ssid);
    if s[0].ssid in Keys(s[1..]) {
      var j :| 0 <= j < |s[1..]| && Keys(s[1..])[j] == s[0].ssid;
      assert Below(s[0].ssid, s[j + 1].ssid);
      BelowIrreflexive(s[0].ssid);
    }
  }

  /** Dropping the first entry of a sorted store drops its key from the map. */
  lemma ViewTail(s: seq<Credential>)
    requires Sorted(s) && s != []
    ensures View(s[1..]) == View(s) - {s[0].ssid}
  {
    HeadNotInTail(s);
  }

  lemma SortedCons(c: Credential, s: seq<Credential>)
    requires Sorted(s)
    requires forall x :: x in s ==> Below(c.ssid, x.ssid)
    ensures Sorted([c] + s)
  {
    var r := [c] + s;
    forall i, j | 0 <= i < j < |r| ensures Below(r[i].ssid, r[j].ssid) {
      if i == 0 {
        assert r[j] == s[j - 1] && r[j] in s;
      } else {
        assert r[i] == s[i - 1] && r[j] == s[j - 1];
      }
    }
  }

  /** `_ssids[ssid] = pass`: overwrite the value of an existing key in place,
      or add the key at its place in key order. */
  function Insert(s: seq<Credential>, c: Credential): (r: seq<Credential>)
    requires Sorted(s)
    ensures Sorted(r)
    ensures View(r) == View(s)[c.ssid := c.pass]
    ensures forall x :: x in r ==> x == c || x in s
  {
    if s == [] then [c]
    else if s[0].ssid == c.ssid then
      InsertReplace(s, c);
      [c] + s[1..]
    else if Below(c.ssid, s[0].ssid) then
      InsertFront(s, c);
      [c] + s
    else
      var t := Insert(s[1..], c);
      InsertBehind(s, c, t);
      [s[0]] + t
  }

  lemma InsertReplace(s: seq<Credential>, c: Credential)
    requires Sorted(s) && s != [] && s[0].ssid == c.ssid
    ensures Sorted([c] + s[1..])
    ensures View([c] + s[1..]) == View(s)[c.ssid := c.pass]
  {
    HeadNotInTail(s);
    ConsTail(c, s[1..]);
    SortedCons(c, s[1..]);
  }

  lemma InsertFront(s: seq<Credential>, c: Credential)
    requires Sorted(s) && s != [] && Below(c.ssid, s[0].ssid)
    ensures Sorted([c] + s)
    ensures View([c] + s) == View(s)[c.ssid := c.pass]
  {
    forall x | x in s ensures Below(c.ssid, x.ssid) {
      var j :| 0 <= j < |s| && s[j] == x;
      if j > 0 { BelowTransitive(c.ssid, s[0].ssid, x.ssid); }
    }
    SortedCons(c, s);
    ConsTail(c, s);
  }

  lemma InsertBehind(s: seq<Credential>, c: Credential, t: seq<Credential>)
    requires Sorted(s) && s != [] && s[0].ssid != c.ssid && !Below(c.ssid, s[0].ssid)
    requires Sorted(t) && View(t) == View(s[1..])[c.ssid := c.pass]
    requires forall x :: x in t ==> x == c || x in s[1..]
    ensures Sorted([s[0]] + t)
    ensures View([s[0]] + t) == View(s)[c.ssid := c.pass]
    ensures forall x :: x in [s[0]] + t ==> x == c || x in s
  {
    BelowTotal(c.ssid, s[0].ssid);
    TailBelow(s, c, t);
    SortedCons(s[0], t);
    ConsTail(s[0], t);
    forall x | x in [s[0]] + t ensures x == c || x in s {
      if x != s[0] {
        assert x in t;
        if x != c {
          var j :| 0 <= j < |s[1..]| && s[1..][j] == x;
          assert s[j + 1] == x;
        }
      }
    }
  }

  lemma TailBelow(s: seq<Credential>, c: Credential, t: seq<Credential>)
    requires Sorted(s) && s != [] && Below(s[0].ssid, c.ssid)
    requires forall x :: x in t ==> x == c || x in s[1..]
    ensures forall x :: x in t ==> Below(s[0].ssid, x.ssid)
  {
    forall x | x in t ensures Below(s[0].ssid, x.ssid) {
      if x != c {
        var j :| 0 <= j < |s[1..]| && s[1..][j] == x;
        assert s[j + 1] == x;
      }
    }
  }

  lemma ConsTail<T>(x: T, s: seq<T>)
    ensures ([x] + s)[0] == x && ([x] + s)[1..] == s
  {
  }

  lemma ConsAppend<T>(s: seq<T>, r: seq<T>)
    requires s != []
    ensures s + r == [s[0]] + (s[1..] + r)
  {
    assert s == [s[0]] + s[1..];
  }

  /** Does the store hold exactly this ssid with exactly this pass? */
  predicate Holds(m: map<string, string>, ssid: string, pass: string)
  {
    ssid in m && m[ssid] == pass
  }

  /** `removeSsid`: erase the first entry whose key and value both match. */
  function Erase(s: seq<Credential>, ssid: string, pass: string): (r: seq<Credential>)
    ensures Credential(ssid, pass) !in s ==> r == s
    ensures Credential(ssid, pass) in s ==> |r| == |s| - 1
    ensures forall x :: x in r ==> x in s
  {
    if s == [] then []
    else if s[0] == Credential(ssid, pass) then s[1..]
    else [s[0]] + Erase(s[1..], ssid, pass)
  }

  /** Erasing from a sorted store keeps it sorted, and removes the key from
      its map exactly when both the key and its value match. */
  lemma {:induction false} EraseSorted(s: seq<Credential>, ssid: string, pass: string)
    requires Sorted(s)
    ensures Sorted(Erase(s, ssid, pass))
  {
    if s != [] && s[0] != Credential(ssid, pass) {
      var tail := s[1..];
      EraseSorted(tail, ssid, pass);
      var t := Erase(tail, ssid, pass);
      forall x | x in t ensures Below(s[0].ssid, x.ssid) {
        var j :| 0 <= j < |tail| && tail[j] == x;
        assert s[j + 1] == x;
      }
      SortedCons(s[0], t);
    }
  }

  lemma {:induction false} EraseView(s: seq<Credential>, ssid: string, pass: string)
    requires Sorted(s)
    ensures Sorted(Erase(s, ssid, pass))
    ensures View(Erase(s, ssid, pass)) ==
      if Holds(View(s), ssid, pass) then View(s) - {ssid} else View(s)
  {
    EraseSorted(s, ssid, pass);
    if s != [] {
      var tail := s[1..];
      ViewTail(s);
      if s[0] != Credential(ssid, pass) {
        EraseView(tail, ssid, pass);
        var t := Erase(tail, ssid, pass);
        ConsTail(s[0], t);
        EraseKeep(s, ssid, pass);
      }
    }
  }

  /** Past a head entry that does not match, the match is looked for in the
      tail, and the head's key is kept. */
  lemma EraseKeep(s: seq<Credential>, ssid: string, pass: string)
    requires Sorted(s) && s != [] && s[0] != Credential(ssid, pass)
    ensures Holds(View(s), ssid, pass) == Holds(View(s[1..]), ssid, pass)
    ensures Holds(View(s), ssid, pass) ==> s[0].ssid != ssid
  {
    ViewTail(s);
  }

  /** The erase the source performs through its iterator: cut out the first
      exact match at index `i`. */
  lemma {:induction false} EraseAt(s: seq<Credential>, i: nat, ssid: string, pass: string)
    requires i < |s| && s[i] == Credential(ssid, pass)
    requires forall j :: 0 <= j < i ==> s[j] != Credential(ssid, pass)
    ensures Erase(s, ssid, pass) == s[..i] + s[i + 1..]
  {
    if i > 0 {
      var t := s[1..];
      assert s[0] != Credential(ssid, pass);
      forall j | 0 <= j < i - 1 ensures t[j] != Credential(ssid, pass) {
        assert t[j] == s[j + 1];
      }
      EraseAt(t, i - 1, ssid, pass);
      CutCons(s, i);
    }
  }

  /** A sorted store's map holds an SSID with a passphrase exactly when the
      store has that entry. */
  lemma HoldsIn(s: seq<Credential>, ssid: string, pass: string)
    requires Sorted(s)
    ensures Holds(View(s), ssid, pass) <==> Credential(ssid, pass) in s
  {
    if Credential(ssid, pass) in s {
      var i :| 0 <= i < |s| && s[i] == Credential(ssid, pass);
      ViewAt(s, i);
    }
    if Holds(View(s), ssid, pass) {
      ViewKeys(s, ssid);
      var i :| 0 <= i < |s| && Keys(s)[i] == ssid;
      ViewAt(s, i);
    }
  }

  /** Cutting index i > 0 out of s keeps s[0] in front. */
  lemma CutCons<T>(s: seq<T>, i: nat)
    requires 0 < i < |s|
    ensures s[..i] + s[i + 1..] == [s[0]] + (s[1..][..i - 1] + s[1..][i..])
  {
    assert s[1..][..i - 1] == s[1..i] && s[1..][i..] == s[i + 1..];
    assert s[..i] == [s[0]] + s[1..i];
  }

  /** The first SSID of a sorted store sorts before every other key. */
  lemma HeadFirst(s: seq<Credential>, k: string)
    requires Sorted(s) && s != [] && k in View(s) && k != s[0].ssid
    ensures Below(s[0].ssid, k)
  {
    ViewKeys(s, k);
    var i :| 0 <= i < |s| && Keys(s)[i] == k;
    assert i > 0;
  }

  /** Two sorted stores with the same map start with the same entry. */
  lemma SameHead(a: seq<Credential>, b: seq<Credential>)
    requires Sorted(a) && Sorted(b) && a != [] && b != [] && View(a) == View(b)
    ensures a[0] == b[0]
  {
    ViewAt(a, 0);
    ViewAt(b, 0);
    if a[0].ssid != b[0].ssid {
      HeadFirst(a, b[0].ssid);
      HeadFirst(b, a[0].ssid);
      BelowAsymmetric(a[0].ssid, b[0].ssid);
    }
  }

  /** A sorted store is determined by its map: the order of entries carries
      no information beyond the keys. */
  lemma {:induction false} SortedViewUnique(a: seq<Credential>, b: seq<Credential>)
    requires Sorted(a) && Sorted(b) && View(a) == View(b)
    ensures a == b
  {
    if a == [] || b == [] {
      if a != [] { ViewAt(a, 0); }
      if b != [] { ViewAt(b, 0); }
    } else {
      SameHead(a, b);
      ViewTail(a);
      ViewTail(b);
      SortedViewUnique(a[1..], b[1..]);
      assert a == [a[0]] + a[1..] && b == [b[0]] + b[1..];
    }
  }

  /** Adding the same credential twice leaves the store as adding it once. */
  lemma InsertIdempotent(s: seq<Credential>, c: Credential)
    requires Sorted(s)
    ensures Insert(Insert(s, c), c) == Insert(s, c)
  {
    SortedViewUnique(Insert(Insert(s, c), c), Insert(s, c));
  }

  /** After an add, the key is present exactly once, with the new value. */
  lemma {:induction false} InsertOnce(s: seq<Credential>, c: Credential, i: nat, j: nat)
    requires Sorted(s)
    requires i < |Insert(s, c)| && j < |Insert(s, c)|
    requires Insert(s, c)[i].ssid == c.ssid && Insert(s, c)[j].ssid == c.ssid
    ensures i == j && Insert(s, c)[i] == c
  {
    var r := Insert(s, c);
    if i < j {
      assert Below(r[i].ssid, r[j].ssid);
      BelowIrreflexive(c.ssid);
    } else if j < i {
      assert Below(r[j].ssid, r[i].ssid);
      BelowIrreflexive(c.ssid);
    }
    ViewAt(r, i);
  }

  /** A credential whose SSID sorts after every stored one goes at the end. */
  lemma {:induction false} InsertLast(s: seq<Credential>, c: Credential)
    requires Sorted(s + [c])
    ensures Sorted(s) && Insert(s, c) == s + [c]
  {
    var r := s + [c];
    forall i, j | 0 <= i < j < |s| ensures Below(s[i].ssid, s[j].ssid) {
      assert s[i] == r[i] && s[j] == r[j];
    }
    if s != [] {
      assert r[0] == s[0] && r[|s|] == c;
      assert Below(s[0].ssid, c.ssid);
      BelowIrreflexive(c.ssid);
      BelowAsymmetric(s[0].ssid, c.ssid);
      assert s[1..] + [c] == r[1..];
      InsertLast(s[1..], c);
      assert [s[0]] + (s[1..] + [c]) == r;
    }
  }
}
