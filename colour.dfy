/** ANSI colouring and the two colour tables: `color_main` (keys such as
    `di`, `bin`, `count`) and `color_ext` (file extensions), both read with a
    default code of `"0"`, filled from `LS_COLORS` and then `TREE_COLORS`. */
module Colour {
  import opened Common
  import opened Text

  /** The two tables as values: what has been stored in each. */
  datatype Palette = Palette(main: map<string, string>, ext: map<string, string>)

  /** A read of a `defaultdict(lambda: '0')`. */
  function Lookup(m: map<string, string>, key: string): string
  {
    if key in m then m[key] else "0"
  }

  /** The SGR escape sequence that selects `code`. */
  function Sgr(code: string): string
  {
    "\U{1b}[" + code + "m"
  }

  /** `color(string, color, do_color)`: the text unchanged when colour is off,
      otherwise the text between the SGR sequence for `code` and the reset. */
  function Color(s: string, code: string, on: bool): (r: string)
    ensures !on ==> r == s
    ensures on ==> r == Sgr(code) + s + Sgr("0")
  {
    if on then "\U{1b}[" + code + "m" + s + "\U{1b}[0m" else s
  }

  // ---------------------------------------------------------------------
  // Entries of LS_COLORS / TREE_COLORS.

  /** What one `key=code` entry does to the tables. */
  datatype Entry = Skipped | Malformed | MainCode(key: string, code: string) | ExtCode(ext: string, code: string)

  /** Reads one entry: an empty entry is skipped, an entry that `=` does not
      cut into exactly two parts is an error, a `*.ext` key goes to the
      extension table without its `*`, any other key to the main table. */
  function ParseEntry(entry: string): (e: Entry)
    ensures e.Skipped? <==> entry == ""
    ensures e.MainCode? ==> entry == e.key + "=" + e.code && !StartsWith(e.key, "*.")
    ensures e.ExtCode? ==> entry == "*" + e.ext + "=" + e.code && StartsWith(e.ext, ".")
    ensures (e.MainCode? || e.ExtCode?) ==> '=' !in e.code
    ensures e.MainCode? ==> '=' !in e.key
    ensures e.ExtCode? ==> '=' !in e.ext
    ensures e.Malformed? <==> entry != "" && !OccursOnce(entry, '=')
  {
    if entry == "" then Skipped
    else
      var parts := SplitOn(entry, '=');
      SplitOnTwo(entry, '=');
      if |parts| != 2 then Malformed
      else
        TwoPieces(entry, '=');
        if StartsWith(parts[0], "*.") then
          assert parts[0] == "*" + parts[0][1..];
          ExtCode(parts[0][1..], parts[1])
        else MainCode(parts[0], parts[1])
  }

  /** A string that `sep` splits into two pieces is those pieces around `sep`. */
  lemma TwoPieces(s: string, sep: char)
    requires |SplitOn(s, sep)| == 2
    ensures var parts := SplitOn(s, sep);
            s == parts[0] + [sep] + parts[1] && sep !in parts[0] && sep !in parts[1]
  {
    var parts := SplitOn(s, sep);
    SplitOnJoin(s, sep);
    assert JoinWith(parts, sep) == parts[0] + [sep] + parts[1];
    SplitOnPiecesFree(s, sep);
  }

  /** The error printed for a malformed entry of variable `name`. */
  function BadEntryMessage(entry: string, name: string): string
  {
    "ERROR: Could not understand entry " + entry + " in environment variable " + name
  }

  /** The state of the tables after reading `entries` in order from `p`, and
      the first malformed entry, at which reading stopped. */
  datatype Applied = Applied(palette: Palette, failed: Option<string>)

  /** What a parsed entry that is not malformed stores. */
  function Store(p: Palette, e: Entry): Palette
  {
    match e
    case MainCode(k, c) => p.(main := p.main[k := c])
    case ExtCode(x, c) => p.(ext := p.ext[x := c])
    case _ => p
  }

  function ApplyEntries(p: Palette, entries: seq<string>): (r: Applied)
    ensures r.failed.Some? ==> r.failed.value in entries && ParseEntry(r.failed.value).Malformed?
    ensures r.failed.None? ==> forall e :: e in entries ==> !ParseEntry(e).Malformed?
    decreases |entries|
  {
    if entries == [] then Applied(p, None)
    else
      var rest := entries[1..];
      assert forall e :: e in entries ==> e == entries[0] || e in rest;
      var e := ParseEntry(entries[0]);
      if e.Malformed? then Applied(p, Some(entries[0])) else ApplyEntries(Store(p, e), rest)
  }

  /** A main key no entry stores a code under reads as it did before. */
  lemma {:induction false} ApplyEntriesOtherKeys(p: Palette, entries: seq<string>, k: string)
    requires !SetsMain(entries, k)
    ensures Lookup(ApplyEntries(p, entries).palette.main, k) == Lookup(p.main, k)
    decreases |entries|
  {
    if entries != [] {
      var e := ParseEntry(entries[0]);
      if !e.Malformed? {
        assert ApplyEntries(p, entries) == ApplyEntries(Store(p, e), entries[1..]);
        SetsTail(entries, k, "");
        ApplyEntriesOtherKeys(Store(p, e), entries[1..], k);
        assert !(e.MainCode? && e.key == k);
      }
    }
  }

  /** An extension no entry stores a code under reads as it did before. */
  lemma {:induction false} ApplyEntriesOtherExts(p: Palette, entries: seq<string>, x: string)
    requires !SetsExt(entries, x)
    ensures Lookup(ApplyEntries(p, entries).palette.ext, x) == Lookup(p.ext, x)
    decreases |entries|
  {
    if entries != [] {
      var e := ParseEntry(entries[0]);
      if !e.Malformed? {
        assert ApplyEntries(p, entries) == ApplyEntries(Store(p, e), entries[1..]);
        SetsTail(entries, "", x);
        ApplyEntriesOtherExts(Store(p, e), entries[1..], x);
        assert !(e.ExtCode? && e.ext == x);
      }
    }
  }

  /** A key set by a later entry is set by the whole list. */
  lemma SetsTail(entries: seq<string>, k: string, x: string)
    requires entries != []
    ensures SetsMain(entries[1..], k) ==> SetsMain(entries, k)
    ensures SetsExt(entries[1..], x) ==> SetsExt(entries, x)
  {
    var rest := entries[1..];
    if SetsMain(rest, k) {
      var i :| 0 <= i < |rest| && ParseEntry(rest[i]).MainCode? && ParseEntry(rest[i]).key == k;
      assert entries[i + 1] == rest[i];
    }
    if SetsExt(rest, x) {
      var i :| 0 <= i < |rest| && ParseEntry(rest[i]).ExtCode? && ParseEntry(rest[i]).ext == x;
      assert entries[i + 1] == rest[i];
    }
  }

  /** Some entry of `entries` stores a code under main key `k`. */
  ghost predicate SetsMain(entries: seq<string>, k: string)
  {
    exists i :: 0 <= i < |entries| && ParseEntry(entries[i]).MainCode? && ParseEntry(entries[i]).key == k
  }

  /** Some entry of `entries` stores a code under extension `x`. */
  ghost predicate SetsExt(entries: seq<string>, x: string)
  {
    exists i :: 0 <= i < |entries| && ParseEntry(entries[i]).ExtCode? && ParseEntry(entries[i]).ext == x
  }

  /** `parse_environment_variable(name)` given the variable's value, absent
      when the variable is unset. */
  function ApplyVariable(p: Palette, name: string, value: Option<string>): (Outcome, Palette)
  {
    match value
    case None => (Continue, p)
    case Some(v) =>
      var a := ApplyEntries(p, SplitOn(v, ':'));
      (if a.failed.None? then Continue else Exit(1, BadEntryMessage(a.failed.value, name)), a.palette)
  }

  /** The code `setup_color` stores for `count` before reading the variables. */
  const CountDefault := "01;32"
  /** The code `setup_color` stores for `bin` before reading the variables. */
  const BinDefault := "01;35"

  /** `setup_color`: nothing when colour is off; otherwise the two defaults,
      then LS_COLORS, then TREE_COLORS (not read if LS_COLORS was malformed). */
  function SetupSpec(p: Palette, colorOn: bool, lsColors: Option<string>, treeColors: Option<string>): (Outcome, Palette)
  {
    if !colorOn then (Continue, p)
    else
      var p0 := p.(main := p.main["count" := CountDefault]["bin" := BinDefault]);
      var (o1, p1) := ApplyVariable(p0, "LS_COLORS", lsColors);
      if o1.Exit? then (o1, p1) else ApplyVariable(p1, "TREE_COLORS", treeColors)
  }

  /** The global tables `color_main` and `color_ext`, which `setup_color` fills in place. */
  class ColorTables {
    var main: map<string, string>
    var ext: map<string, string>

    constructor ()
      ensures main == map[] && ext == map[]
    {
      main := map[];
      ext := map[];
    }

    function Tables(): Palette
      reads this
    {
      Palette(main, ext)
    }

    /** The entry loop of `parse_environment_variable`. */
    method ParseVariable(name: string, value: Option<string>) returns (r: Outcome)
      modifies this
      ensures (r, Tables()) == ApplyVariable(old(Tables()), name, value)
    {
      r := Continue;
      if value.None? {
        return;
      }
      var entries := SplitOn(value.value, ':');
      var i := 0;
      while i < |entries|
        invariant 0 <= i <= |entries|
        invariant ApplyEntries(Tables(), entries[i..]) == ApplyEntries(old(Tables()), entries)
      {
        var entry := entries[i];
        assert entries[i..][0] == entry && entries[i..][1..] == entries[i + 1..];
        match ParseEntry(entry) {
          case Skipped =>
          case Malformed =>
            r := Exit(1, BadEntryMessage(entry, name));
            return;
          case MainCode(k, c) =>
            main := main[k := c];
          case ExtCode(x, c) =>
            ext := ext[x := c];
        }
        i := i + 1;
      }
    }

    /** `setup_color(args)`. */
    method Setup(colorOn: bool, lsColors: Option<string>, treeColors: Option<string>) returns (r: Outcome)
      modifies this
      ensures (r, Tables()) == SetupSpec(old(Tables()), colorOn, lsColors, treeColors)
    {
      r := Continue;
      if !colorOn {
        return;
      }
      main := main["count" := CountDefault];
      main := main["bin" := BinDefault];
      r := ParseVariable("LS_COLORS", lsColors);
      if r.Exit? {
        return;
      }
      r := ParseVariable("TREE_COLORS", treeColors);
    }
  }

  // ---------------------------------------------------------------------
  // Properties.

  /** With colour off the tables stay as they were: empty, so every lookup gives `"0"`. */
  lemma SetupColourOff(lsColors: Option<string>, treeColors: Option<string>, key: string)
    ensures var (o, p) := SetupSpec(Palette(map[], map[]), false, lsColors, treeColors);
            o == Continue && Lookup(p.main, key) == "0" && Lookup(p.ext, key) == "0"
  {
  }

  /** With colour on and neither variable set, only the two defaults are stored. */
  lemma SetupDefaults(key: string)
    ensures var (o, p) := SetupSpec(Palette(map[], map[]), true, None, None);
            && o == Continue
            && Lookup(p.main, "count") == "01;32" && Lookup(p.main, "bin") == "01;35"
            && (key != "count" && key != "bin" ==> Lookup(p.main, key) == "0")
            && Lookup(p.ext, key) == "0"
  {
  }

  /** Reading `e1 + e2` is reading `e1`, then (unless it failed) `e2`. */
  lemma {:induction false} ApplyEntriesAppend(p: Palette, e1: seq<string>, e2: seq<string>)
    ensures var a := ApplyEntries(p, e1);
            ApplyEntries(p, e1 + e2) == if a.failed.Some? then a else ApplyEntries(a.palette, e2)
    decreases |e1|
  {
    if e1 != [] {
      assert (e1 + e2)[0] == e1[0] && (e1 + e2)[1..] == e1[1..] + e2;
      match ParseEntry(e1[0])
      case Skipped => ApplyEntriesAppend(p, e1[1..], e2);
      case Malformed =>
      case MainCode(k, c) => ApplyEntriesAppend(p.(main := p.main[k := c]), e1[1..], e2);
      case ExtCode(x, c) => ApplyEntriesAppend(p.(ext := p.ext[x := c]), e1[1..], e2);
    } else {
      assert e1 + e2 == e2;
    }
  }

  /** A well-formed `*.ext=code` entry read from an entry string round-trips. */
  lemma ParseEntryExt(x: string, code: string)
    requires StartsWith(x, ".") && '=' !in x && '=' !in code
    ensures ParseEntry("*" + x + "=" + code) == ExtCode(x, code)
  {
    var e := "*" + x + "=" + code;
    assert '=' !in "*" + x;
    SplitOnConcat("*" + x, '=', code);
    SplitOnNone("*" + x, '=');
    SplitOnNone(code, '=');
    assert ("*" + x)[1..] == x;
  }

  /** A well-formed `key=code` entry with any other key round-trips. */
  lemma ParseEntryMain(k: string, code: string)
    requires !StartsWith(k, "*.") && '=' !in k && '=' !in code
    ensures ParseEntry(k + "=" + code) == MainCode(k, code)
  {
    SplitOnConcat(k, '=', code);
    SplitOnNone(k, '=');
    SplitOnNone(code, '=');
  }

  /** An entry without `=` or with two of them is malformed. */
  lemma ParseEntryMalformed(a: string, b: string, c: string)
    requires '=' !in a && '=' !in b && '=' !in c && a != ""
    ensures ParseEntry(a) == Malformed
    ensures ParseEntry(a + "=" + b + "=" + c) == Malformed
  {
    SplitOnNone(a, '=');
    SplitOnConcat(a + "=" + b, '=', c);
    SplitOnConcat(a, '=', b);
    SplitOnNone(a, '=');
    SplitOnNone(b, '=');
    SplitOnNone(c, '=');
  }

  /** When reading succeeds, an entry for main key `k` at the end decides its code. */
  lemma LastEntryWins(p: Palette, es: seq<string>, last: string, k: string, code: string)
    requires ParseEntry(last) == MainCode(k, code)
    ensures var a := ApplyEntries(p, es + [last]);
            a.failed.None? ==> Lookup(a.palette.main, k) == code
  {
    ApplyEntriesAppend(p, es, [last]);
    var a := ApplyEntries(p, es);
    if a.failed.None? {
      assert ApplyEntries(a.palette, [last]) == ApplyEntries(a.palette.(main := a.palette.main[k := code]), []);
    }
  }

  /** A `key=code` entry at the end of TREE_COLORS decides the key's code,
      whatever LS_COLORS said: TREE_COLORS is read last. */
  lemma TreeColorsWin(lsColors: Option<string>, front: string, k: string, code: string)
    requires !StartsWith(k, "*.") && '=' !in k && '=' !in code && ':' !in k && ':' !in code
    ensures var (o, p) := SetupSpec(Palette(map[], map[]), true, lsColors, Some(front + ":" + k + "=" + code));
            o == Continue ==> Lookup(p.main, k) == code
  {
    var last := k + "=" + code;
    assert ':' !in last;
    assert front + ":" + k + "=" + code == front + [':'] + last;
    SplitOnConcat(front, ':', last);
    SplitOnNone(last, ':');
    ParseEntryMain(k, code);
    var p0 := Palette(map["count" := CountDefault]["bin" := BinDefault], map[]);
    var (o1, p1) := ApplyVariable(p0, "LS_COLORS", lsColors);
    LastEntryWins(p1, SplitOn(front, ':'), last, k, code);
  }
}
