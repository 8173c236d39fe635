/** The credential file `/WiFiPicker` on flash. `writeConfig` prints, for
    each entry in key order, the SSID and then the passphrase with `println`,
    which ends every line with "\r\n". `readConfig` reads the file back two
    `readStringUntil('\n')` calls at a time, drops the last character of each
    piece (the '\r') and stores the pair with `_ssids[ssid] = pass`. */
module Record {
  import opened Lex
  import opened Store

  /** The flash file: absent, or present with these characters. */
  datatype Flash = Missing | Stored(content: string)

  /** What `println(x)` writes. */
  function Line(x: string): string
  {
    x + "\r\n"
  }

  /** `readStringUntil('\n')`: the characters up to the first newline, and
      what is left after that newline (all of it when there is none). */
  function Split(c: string): (r: (string, string))
    ensures '\n' !in r.0
    ensures |r.0| + |r.1| <= |c| && (c != [] ==> |r.1| < |c|)
  {
    if c == [] then ([], [])
    else if c[0] == '\n' then ([], c[1..])
    else
      var (line, rest) := Split(c[1..]);
      ([c[0]] + line, rest)
  }

  /** Reading a line consumes exactly that line and its newline, or the
      whole input when it holds no newline. */
  lemma {:induction false} SplitShape(c: string)
    ensures var (line, rest) := Split(c);
      c == line + "\n" + rest || ('\n' !in c && line == c && rest == [])
  {
    if c != [] && c[0] != '\n' {
      SplitShape(c[1..]);
      assert c == [c[0]] + c[1..];
    }
  }

  /** `s.remove(s.length() - 1)`: drop the last character, if there is one
      (on an empty string the index wraps around and nothing is removed). */
  function DropLast(s: string): (r: string)
    ensures s != [] ==> s == r + [s[|s| - 1]]
    ensures s == [] ==> r == []
  {
    if s == [] then [] else s[..|s| - 1]
  }

  /** The entries the read loop meets, in file order: while characters
      remain, one piece for the SSID and one for the passphrase (empty when
      the file ends first). */
  function Records(c: string): (r: seq<Credential>)
    ensures |r| <= |c|
    decreases |c|
  {
    if c == [] then []
    else
      var (ssidLine, afterSsid) := Split(c);
      var (passLine, rest) := Split(afterSsid);
      [Credential(DropLast(ssidLine), DropLast(passLine))] + Records(rest)
  }

  /** Inserting the entries one by one, later duplicates overwriting earlier
      ones. */
  function Build(acc: seq<Credential>, rs: seq<Credential>): (r: seq<Credential>)
    requires Sorted(acc)
    ensures Sorted(r)
    decreases rs
  {
    if rs == [] then acc else Build(Insert(acc, rs[0]), rs[1..])
  }

  /** The store `readConfig` builds from the file's characters. */
  function Parse(c: string): seq<Credential>
  {
    Build([], Records(c))
  }

  /** The store `readConfig` builds from the flash: empty when there is no
      file. */
  function Load(f: Flash): seq<Credential>
  {
    match f
    case Missing => []
    case Stored(c) => Parse(c)
  }

  /** The file `writeConfig` leaves: two lines per entry, in store order. */
  function Serialize(s: seq<Credential>): string
  {
    if s == [] then [] else Entry(s[0]) + Serialize(s[1..])
  }

  /** The two lines written for one entry. */
  function Entry(c: Credential): string
  {
    Line(c.ssid) + Line(c.pass)
  }

  predicate NewlineFree(s: seq<Credential>)
  {
    forall i :: 0 <= i < |s| ==> '\n' !in s[i].ssid && '\n' !in s[i].pass
  }

  lemma {:induction false} SerializeAppend(a: seq<Credential>, b: seq<Credential>)
    ensures Serialize(a + b) == Serialize(a) + Serialize(b)
  {
    if a != [] {
      assert (a + b)[0] == a[0] && (a + b)[1..] == a[1..] + b;
      SerializeAppend(a[1..], b);
    } else {
      assert a + b == b;
    }
  }

  /** A newline-free line is read back whole, and reading stops after its
      newline. */
  lemma {:induction false} SplitLine(line: string, rest: string)
    requires '\n' !in line
    ensures Split(line + "\n" + rest) == (line, rest)
  {
    var c := line + "\n" + rest;
    if line == [] {
      assert c == "\n" + rest && c[1..] == rest;
    } else {
      assert c[0] == line[0] && c[1..] == line[1..] + "\n" + rest;
      SplitLine(line[1..], rest);
      assert line == [line[0]] + line[1..];
    }
  }

  lemma DropLineEnd(x: string)
    ensures DropLast(x + "\r") == x
  {
    assert (x + "\r")[..|x|] == x;
  }

  /** Reading a written file meets exactly the entries that were written,
      provided no SSID or passphrase contains a newline. */
  lemma RecordsSerialize(s: seq<Credential>)
    requires NewlineFree(s)
    ensures Records(Serialize(s)) == s
  {
    RecordsPrefix(s, []);
    assert Serialize(s) + [] == Serialize(s) && s + [] == s;
  }

  /** Re-inserting entries that already come in key order rebuilds them
      unchanged. */
  lemma {:induction false} BuildSorted(acc: seq<Credential>, rs: seq<Credential>)
    requires Sorted(acc + rs)
    ensures Sorted(acc) && Build(acc, rs) == acc + rs
    decreases rs
  {
    var all := acc + rs;
    forall i, j | 0 <= i < j < |acc| ensures Below(acc[i].ssid, acc[j].ssid) {
      assert acc[i] == all[i] && acc[j] == all[j];
    }
    if rs != [] {
      var next := acc + [rs[0]];
      assert next + rs[1..] == all;
      forall i, j | 0 <= i < j < |next| ensures Below(next[i].ssid, next[j].ssid) {
        assert next[i] == all[i] && next[j] == all[j];
      }
      InsertLast(acc, rs[0]);
      BuildSorted(next, rs[1..]);
    }
  }

  /** The write/read round trip: reading back what `writeConfig` wrote gives
      the same store, entry for entry and in the same order. */
  lemma ParseSerialize(s: seq<Credential>)
    requires Sorted(s) && NewlineFree(s)
    ensures Parse(Serialize(s)) == s
  {
    RecordsSerialize(s);
    BuildSorted([], s);
    assert [] + s == s;
  }

  /** The map update applied by each loop turn of `readConfig`. */
  function Overwrite(m: map<string, string>, rs: seq<Credential>): map<string, string>
    decreases rs
  {
    if rs == [] then m else Overwrite(m[rs[0].ssid := rs[0].pass], rs[1..])
  }

  /** The store read from a file is the map `_ssids[ssid] = pass` builds
      over the file's entries, a later entry for a key replacing an earlier
      one. */
  lemma {:induction false} BuildView(acc: seq<Credential>, rs: seq<Credential>)
    requires Sorted(acc)
    ensures View(Build(acc, rs)) == Overwrite(View(acc), rs)
    decreases rs
  {
    if rs != [] {
      BuildView(Insert(acc, rs[0]), rs[1..]);
    }
  }

  /** A file whose last entry has an SSID line but no passphrase line keeps
      that SSID, with an empty passphrase. */
  lemma TrailingSsid(s: seq<Credential>, ssid: string)
    requires NewlineFree(s) && '\n' !in ssid
    ensures Records(Serialize(s) + Line(ssid)) == s + [Credential(ssid, "")]
  {
    var c := Line(ssid);
    SplitLine(ssid + "\r", []);
    assert c == ssid + "\r" + "\n" + [];
    assert Split([]) == ([], []);
    DropLineEnd(ssid);
    assert Records(c) == [Credential(ssid, "")] + Records([]);
    RecordsPrefix(s, c);
  }

  /** Two newline-terminated lines are read as one entry, each line losing
      its last character. */
  lemma RecordsLines(x: string, y: string, tail: string)
    requires '\n' !in x && '\n' !in y
    ensures Records(x + "\n" + (y + "\n" + tail))
      == [Credential(DropLast(x), DropLast(y))] + Records(tail)
  {
    SplitLine(x, y + "\n" + tail);
    SplitLine(y, tail);
  }

  /** One written entry is read back as that entry. */
  lemma RecordsEntry(c: Credential, tail: string)
    requires '\n' !in c.ssid && '\n' !in c.pass
    ensures Records(Entry(c) + tail) == [c] + Records(tail)
  {
    var x, y := c.ssid + "\r", c.pass + "\r";
    assert Entry(c) + tail == x + "\n" + (y + "\n" + tail);
    RecordsLines(x, y, tail);
    DropLineEnd(c.ssid);
    DropLineEnd(c.pass);
  }

  lemma NewlineFreeTail(s: seq<Credential>)
    requires NewlineFree(s) && s != []
    ensures '\n' !in s[0].ssid && '\n' !in s[0].pass && NewlineFree(s[1..])
  {
    forall i | 0 <= i < |s| - 1 ensures '\n' !in s[1..][i].ssid && '\n' !in s[1..][i].pass {
      assert s[1..][i] == s[i + 1];
    }
  }

  /** Entries read from a prefix written by `writeConfig` come first. */
  lemma {:induction false} RecordsPrefix(s: seq<Credential>, more: string)
    requires NewlineFree(s)
    ensures Records(Serialize(s) + more) == s + Records(more)
  {
    if s == [] {
      assert Serialize(s) + more == more;
    } else {
      NewlineFreeTail(s);
      RecordsStep(s, more);
      RecordsPrefix(s[1..], more);
      ConsAppend(s, Records(more));
    }
  }

  lemma RecordsStep(s: seq<Credential>, more: string)
    requires s != [] && '\n' !in s[0].ssid && '\n' !in s[0].pass
    ensures Records(Serialize(s) + more) == [s[0]] + Records(Serialize(s[1..]) + more)
  {
    var tail := Serialize(s[1..]) + more;
    assert Serialize(s) + more == Entry(s[0]) + tail;
    RecordsEntry(s[0], tail);
  }

  /** Without the newline-free condition the round trip fails: an SSID
      x + "\n" + y is read back as two entries, neither of them the one
      written. */
  lemma NewlineBreaksRoundTrip(x: string, y: string, pass: string)
    requires '\n' !in x && '\n' !in y && '\n' !in pass
    ensures Records(Serialize([Credential(x + "\n" + y, pass)]))
      == [Credential(DropLast(x), y), Credential(pass, "")]
  {
    var rest := Line(pass);
    SerializeOne(Credential(x + "\n" + y, pass));
    LineShape(x, y, rest);
    RecordsLines(x, y + "\r", rest);
    DropLineEnd(y);
    TrailingSsid([], pass);
    assert Serialize([]) + rest == rest;
  }

  lemma SerializeOne(c: Credential)
    ensures Serialize([c]) == Line(c.ssid) + Line(c.pass)
  {
    assert [c][0] == c && [c][1..] == [];
  }

  lemma LineShape(x: string, y: string, rest: string)
    ensures Line(x + "\n" + y) + rest == x + "\n" + ((y + "\r") + "\n" + rest)
  {
  }
}
