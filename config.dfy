/**
 * ConfigManager: an INI-style key/value store. Keys are stored flat as "section.key" (or the bare
 * key outside any section) in one ordered map; lines are parsed as comments, `[section]` headers or
 * `key=value` entries.
 */
module Config {
  import opened Wrappers
  import opened KeyOrder

  // ---------------------------------------------------------------------------
  // Trimming and key construction
  // ---------------------------------------------------------------------------

  /** A character of the set " \t\r\n" TrimString strips. */
  predicate IsSpace(c: char)
  {
    c == ' ' || c == '\t' || c == '\r' || c == '\n'
  }

  predicate AllSpace(s: string)
  {
    forall i | 0 <= i < |s| :: IsSpace(s[i])
  }

  /** `find_first_not_of(" \t\r\n")`, with `|s|` standing for npos. */
  function FirstNotSpace(s: string): (k: nat)
    ensures k <= |s| && AllSpace(s[..k])
    ensures k < |s| ==> !IsSpace(s[k])
  {
    if s == [] then 0
    else if !IsSpace(s[0]) then 0
    else
      var k := FirstNotSpace(s[1..]);
      assert s[..1 + k] == [s[0]] + s[1..][..k];
      1 + k
  }

  /** `find_last_not_of(" \t\r\n")`, with -1 standing for npos. */
  function LastNotSpace(s: string): (k: int)
    ensures -1 <= k < |s| && AllSpace(s[k + 1..])
    ensures k >= 0 ==> !IsSpace(s[k])
    decreases |s|
  {
    if s == [] then -1
    else if !IsSpace(s[|s| - 1]) then |s| - 1
    else
      var k := LastNotSpace(s[..|s| - 1]);
      assert s[k + 1..] == s[..|s| - 1][k + 1..] + [s[|s| - 1]];
      k
  }

  /** `TrimString`: the text between the first and the last character not in " \t\r\n". */
  function TrimString(s: string): string
  {
    var start := FirstNotSpace(s);
    if start == |s| then ""
    else
      assert !IsSpace(s[start]);
      s[start .. LastNotSpace(s) + 1]
  }

  /** The first non-space character comes no later than the last one. */
  lemma FirstBeforeLast(s: string)
    requires FirstNotSpace(s) < |s|
    ensures FirstNotSpace(s) <= LastNotSpace(s)
  {
    var e := LastNotSpace(s);
    forall i | e < i < |s| ensures IsSpace(s[i]) {
      assert s[e + 1..][i - e - 1] == s[i];
    }
  }

  /** TrimString gives "" exactly for all-whitespace input. */
  lemma TrimEmptyIff(s: string)
    ensures AllSpace(s) <==> TrimString(s) == ""
  {
    var st := FirstNotSpace(s);
    if st == |s| {
      assert s[..st] == s;
    } else {
      assert !IsSpace(s[st]);
    }
  }

  /** What TrimString keeps is the piece between two runs of whitespace. */
  lemma TrimSlice(s: string)
    ensures var r, st := TrimString(s), FirstNotSpace(s);
              st + |r| <= |s| && r == s[st .. st + |r|] && AllSpace(s[..st]) && AllSpace(s[st + |r|..])
  {
    var st := FirstNotSpace(s);
    var r := TrimString(s);
    if st < |s| {
      FirstBeforeLast(s);
      var e := LastNotSpace(s);
      assert r == s[st .. e + 1];
      assert |r| == e + 1 - st;
      assert AllSpace(s[e + 1..]);
    } else {
      assert r == "";
      assert s[st..] == [];
    }
  }

  /** A non-empty trimmed string starts and ends with a non-space. */
  lemma TrimEnds(s: string)
    ensures var r := TrimString(s); r != "" ==> !IsSpace(r[0]) && !IsSpace(r[|r| - 1])
  {
    var st := FirstNotSpace(s);
    if st < |s| {
      FirstBeforeLast(s);
      var e := LastNotSpace(s);
      var r := s[st .. e + 1];
      assert TrimString(s) == r;
      assert r[0] == s[st] && r[|r| - 1] == s[e];
    }
  }

  /**
   * TrimString removes a run of whitespace from each end and nothing else: what is left is a
   * contiguous piece of `s`, starting and ending with a non-space, and empty exactly when `s` is
   * all whitespace.
   */
  lemma TrimStringSpec(s: string)
    ensures AllSpace(s) <==> TrimString(s) == ""
    ensures var r, st := TrimString(s), FirstNotSpace(s);
              st + |r| <= |s| && r == s[st .. st + |r|] && AllSpace(s[..st]) && AllSpace(s[st + |r|..])
    ensures var r := TrimString(s); r != "" ==> !IsSpace(r[0]) && !IsSpace(r[|r| - 1])
  {
    TrimEmptyIff(s);
    TrimSlice(s);
    TrimEnds(s);
  }

  /** Trimming twice is trimming once. */
  lemma TrimIdempotent(s: string)
    ensures TrimString(TrimString(s)) == TrimString(s)
  {
    TrimStringSpec(s);
    var r := TrimString(s);
    if r != "" {
      assert FirstNotSpace(r) == 0;
      assert LastNotSpace(r) == |r| - 1;
      assert r[0 .. |r|] == r;
    }
  }

  /** `CreateKey`: the bare key outside a section, "section.key" inside one. */
  function CreateKey(section: string, key: string): string
  {
    if section == "" then key else section + "." + key
  }

  /** `s` starts with `p` (`s.substr(0, p.length()) == p`). */
  predicate HasPrefix(s: string, p: string)
  {
    |p| <= |s| && s[..|p|] == p
  }

  /** Index of the first `c` in `s`, or `|s|` when there is none (`find`). */
  function Find(s: string, c: char): (k: nat)
    ensures k <= |s| && c !in s[..k]
    ensures k < |s| ==> s[k] == c
  {
    if s == [] then 0
    else if s[0] == c then 0
    else
      var k := Find(s[1..], c);
      assert s[..1 + k] == [s[0]] + s[1..][..k];
      1 + k
  }

  /** The section part of a stored key: what precedes its first '.', if it has one. */
  function SectionOf(fullKey: string): Option<string>
  {
    var dot := Find(fullKey, '.');
    if dot == |fullKey| then None else Some(fullKey[..dot])
  }

  /** A key made in a section without dots has that section, and lies under "section.". */
  lemma CreateKeySection(section: string, key: string)
    requires section != "" && '.' !in section
    ensures SectionOf(CreateKey(section, key)) == Some(section)
    ensures HasPrefix(CreateKey(section, key), section + ".")
  {
    var full := CreateKey(section, key);
    assert full[..|section|] == section && full[|section|] == '.';
  }

  /** Within one section, different keys make different stored keys. */
  lemma CreateKeyInjective(section: string, k1: string, k2: string)
    requires CreateKey(section, k1) == CreateKey(section, k2)
    ensures k1 == k2
  {
    if section != "" {
      var n := |section| + 1;
      assert k1 == CreateKey(section, k1)[n..];
      assert k2 == CreateKey(section, k2)[n..];
    }
  }

  // ---------------------------------------------------------------------------
  // Line parsing and LoadFromFile as a fold
  // ---------------------------------------------------------------------------

  /** What one line of a config file contributes. */
  datatype Line = Skip | Header(name: string) | Entry(key: string, value: string)

  /**
   * One iteration of the LoadFromFile loop: trim; skip an empty line or a '#'/';' comment; a line
   * `[...]` names the section (inner text trimmed); otherwise split at the first '=' into a trimmed
   * key and value, skipping a line with no '=' or an empty key.
   */
  function ParseLine(raw: string): Line
  {
    var line := TrimString(raw);
    if line == "" || line[0] == '#' || line[0] == ';' then Skip
    else if line[0] == '[' && line[|line| - 1] == ']' then Header(TrimString(line[1 .. |line| - 1]))
    else
      var eq := Find(line, '=');
      if eq == |line| then Skip
      else
        var key := TrimString(line[..eq]);
        if key == "" then Skip else Entry(key, TrimString(line[eq + 1..]))
  }

  /** Trimming adds no character: one absent from `s` is absent from its trimmed form. */
  lemma TrimKeepsOut(s: string, c: char)
    requires c !in s
    ensures c !in TrimString(s)
  {
    TrimSlice(s);
    var r, st := TrimString(s), FirstNotSpace(s);
    forall i | 0 <= i < |r| ensures r[i] != c {
      assert r[i] == s[st + i];
    }
  }

  /** A blank line, of spaces only, is skipped. */
  lemma ParseBlank(raw: string)
    requires AllSpace(raw)
    ensures ParseLine(raw) == Skip
  {
    TrimEmptyIff(raw);
  }

  /** A section header's name comes out trimmed. */
  lemma ParseHeader(raw: string)
    ensures var r := ParseLine(raw); r.Header? ==> TrimString(r.name) == r.name
  {
    var line := TrimString(raw);
    if line != "" && line[0] != '#' && line[0] != ';' && line[0] == '[' && line[|line| - 1] == ']' {
      var inner := line[1 .. |line| - 1];
      assert ParseLine(raw) == Header(TrimString(inner));
      TrimIdempotent(inner);
    } else {
      assert !ParseLine(raw).Header?;
    }
  }

  /** An entry's key is non-empty, trimmed and free of '='; its value is trimmed. */
  lemma ParseEntry(raw: string)
    ensures var r := ParseLine(raw);
              r.Entry? ==> r.key != "" && '=' !in r.key && TrimString(r.key) == r.key && TrimString(r.value) == r.value
  {
    var line := TrimString(raw);
    if line == "" || line[0] == '#' || line[0] == ';' || (line[0] == '[' && line[|line| - 1] == ']') {
      assert !ParseLine(raw).Entry?;
    } else {
      var eq := Find(line, '=');
      if eq == |line| {
        assert ParseLine(raw) == Skip;
      } else {
        var k, v := line[..eq], line[eq + 1..];
        assert ParseLine(raw) == if TrimString(k) == "" then Skip else Entry(TrimString(k), TrimString(v));
        TrimIdempotent(k);
        TrimIdempotent(v);
        TrimKeepsOut(k, '=');
      }
    }
  }

  /** The lines of a file as LoadFromFile reads them. */
  function Parsed(lines: seq<string>): (ps: seq<Line>)
    ensures |ps| == |lines| && forall i | 0 <= i < |lines| :: ps[i] == ParseLine(lines[i])
  {
    seq(|lines|, i requires 0 <= i < |lines| => ParseLine(lines[i]))
  }

  /** The loop state of LoadFromFile: the map and the current section. */
  datatype LoadState = LoadState(data: map<string, string>, section: string)

  /** What one parsed line does to the loop state. */
  function Apply(st: LoadState, l: Line): LoadState
  {
    match l
    case Skip => st
    case Header(name) => st.(section := name)
    case Entry(key, value) => st.(data := st.data[CreateKey(st.section, key) := value])
  }

  /** The parsed lines applied from first to last. */
  function Load(st: LoadState, ls: seq<Line>): LoadState
    decreases |ls|
  {
    if ls == [] then st else Load(Apply(st, ls[0]), ls[1..])
  }

  /** The stored keys the entry lines write, each under the section current at that line. */
  function Written(st: LoadState, ls: seq<Line>): set<string>
    decreases |ls|
  {
    if ls == [] then {}
    else (if ls[0].Entry? then {CreateKey(st.section, ls[0].key)} else {}) + Written(Apply(st, ls[0]), ls[1..])
  }

  /** One more line loaded is that line applied to the state before it. */
  lemma LoadSnoc(st: LoadState, ls: seq<Line>, i: nat)
    requires i < |ls|
    ensures Load(st, ls[..i + 1]) == Apply(Load(st, ls[..i]), ls[i])
  {
    assert ls[..i + 1] == ls[..i] + [ls[i]];
    LoadAppend(st, ls[..i], [ls[i]]);
    assert [ls[i]][1..] == [];
  }

  /** Loading two runs of lines is loading the first and then the second. */
  lemma {:induction false} LoadAppend(st: LoadState, a: seq<Line>, b: seq<Line>)
    ensures Load(st, a + b) == Load(Load(st, a), b)
    decreases |a|
  {
    if a != [] {
      assert (a + b)[0] == a[0] && (a + b)[1..] == a[1..] + b;
      LoadAppend(Apply(st, a[0]), a[1..], b);
    } else {
      assert a + b == b;
    }
  }

  /** A key no entry line names keeps its presence and value from before the load. */
  lemma {:induction false} LoadKeepsOthers(st: LoadState, ls: seq<Line>, k: string)
    requires k !in Written(st, ls)
    ensures k in Load(st, ls).data <==> k in st.data
    ensures k in st.data ==> Load(st, ls).data[k] == st.data[k]
    decreases |ls|
  {
    if ls != [] {
      LoadKeepsOthers(Apply(st, ls[0]), ls[1..], k);
    }
  }

  /** Every key an entry line names is present once the load is over. */
  lemma {:induction false} LoadWrites(st: LoadState, ls: seq<Line>, k: string)
    requires k in Written(st, ls)
    ensures k in Load(st, ls).data
    decreases |ls|
  {
    if ls != [] {
      var next := Apply(st, ls[0]);
      if k in Written(next, ls[1..]) {
        LoadWrites(next, ls[1..], k);
      } else {
        LoadKeepsOthers(next, ls[1..], k);
      }
    }
  }

  /** Of several entries for one key, the last one wins. */
  lemma LastEntryWins(st: LoadState, ls: seq<Line>, key: string, value: string)
    ensures var k := CreateKey(Load(st, ls).section, key);
              k in Load(st, ls + [Entry(key, value)]).data && Load(st, ls + [Entry(key, value)]).data[k] == value
  {
    LoadAppend(st, ls, [Entry(key, value)]);
  }

  /** A header changes only the current section, which the entries after it are stored under. */
  lemma HeaderThenEntry(st: LoadState, name: string, key: string, value: string)
    ensures Load(st, [Header(name), Entry(key, value)]) == LoadState(st.data[CreateKey(name, key) := value], name)
  {
    var ls := [Header(name), Entry(key, value)];
    assert ls[1..] == [Entry(key, value)] && ls[1..][1..] == [];
    var st1 := Apply(st, Header(name));
    assert Load(st, ls) == Load(st1, [Entry(key, value)]);
    assert Load(st1, [Entry(key, value)]) == Load(Apply(st1, Entry(key, value)), []);
  }
  // ---------------------------------------------------------------------------
  // The const lookups, as functions of the map
  // ---------------------------------------------------------------------------

  /** `GetString`: the stored value, or the caller's default when the key is absent. */
  function GetString(data: map<string, string>, section: string, key: string, default: string): string
  {
    var full := CreateKey(section, key);
    if full in data then data[full] else default
  }

  /** `HasKey`. */
  function HasKey(data: map<string, string>, section: string, key: string): bool
  {
    CreateKey(section, key) in data
  }

  /** ASCII `tolower` over a string. */
  function ToLower(s: string): (r: string)
    ensures |r| == |s|
    ensures forall i | 0 <= i < |s| :: r[i] == if 'A' <= s[i] <= 'Z' then (s[i] as int + 32) as char else s[i]
  {
    seq(|s|, i requires 0 <= i < |s| => if 'A' <= s[i] <= 'Z' then (s[i] as int + 32) as char else s[i])
  }

  /** The lower-cased spellings GetBool reads as true. */
  predicate IsTrueWord(w: string)
  {
    w == "true" || w == "1" || w == "yes" || w == "on"
  }

  /** `GetBool`: the default for a missing or empty value, else whether it is a true word ignoring case. */
  function GetBool(data: map<string, string>, section: string, key: string, default: bool): bool
  {
    var value := GetString(data, section, key, "");
    if value == "" then default else IsTrueWord(ToLower(value))
  }

  /** What SetBool stores. */
  function BoolText(b: bool): string
  {
    if b then "true" else "false"
  }

  /** A stored key answers with its value; a missing one with the caller's default. */
  lemma GetStringCases(data: map<string, string>, section: string, key: string, default: string)
    ensures HasKey(data, section, key) ==> GetString(data, section, key, default) == data[CreateKey(section, key)]
    ensures !HasKey(data, section, key) ==> GetString(data, section, key, default) == default
  {
  }

  /** A key stored by SetBool reads back as the same boolean, whatever the default. */
  lemma GetBoolOfBoolText(data: map<string, string>, section: string, key: string, b: bool, default: bool)
    ensures GetBool(data[CreateKey(section, key) := BoolText(b)], section, key, default) == b
  {
    var m := data[CreateKey(section, key) := BoolText(b)];
    assert GetString(m, section, key, "") == BoolText(b);
    if b {
      assert ToLower("true") == "true";
    } else {
      var l := ToLower("false");
      assert l[0] == 'f' && |l| == 5;
    }
  }

  /** Only the four words count as true, in any letter case: "TRUE" and "On" do, "y" and "2" do not. */
  lemma GetBoolWords(data: map<string, string>, section: string, key: string)
    ensures GetBool(data[CreateKey(section, key) := "TRUE"], section, key, false)
    ensures GetBool(data[CreateKey(section, key) := "On"], section, key, false)
    ensures !GetBool(data[CreateKey(section, key) := "y"], section, key, true)
    ensures !GetBool(data[CreateKey(section, key) := "2"], section, key, true)
    ensures GetBool(data[CreateKey(section, key) := ""], section, key, true)
  {
    assert ToLower("TRUE") == "true";
    assert ToLower("On") == "on";
    assert ToLower("y") == "y";
    assert ToLower("2") == "2";
  }

  // ---------------------------------------------------------------------------
  // GetSections / GetKeys as folds over the keys in map order
  // ---------------------------------------------------------------------------

  /** One GetSections step: add the key's section unless it has none or it is already listed. */
  function AddSection(sections: seq<string>, fullKey: string): seq<string>
  {
    match SectionOf(fullKey)
    case None => sections
    case Some(s) => if s in sections then sections else sections + [s]
  }

  function SectionsFrom(keys: seq<string>, sections: seq<string>): seq<string>
    decreases |keys|
  {
    if keys == [] then sections else SectionsFrom(keys[1..], AddSection(sections, keys[0]))
  }

  predicate NoDuplicates(s: seq<string>)
  {
    forall i, j | 0 <= i < j < |s| :: s[i] != s[j]
  }

  /** GetSections lists each section once, and exactly the sections of keys that have a '.'. */
  lemma {:induction false} SectionsFromSpec(keys: seq<string>, sections: seq<string>)
    requires NoDuplicates(sections)
    ensures NoDuplicates(SectionsFrom(keys, sections))
    ensures forall x :: x in SectionsFrom(keys, sections) <==>
              x in sections || exists k | k in keys :: SectionOf(k) == Some(x)
    decreases |keys|
  {
    if keys != [] {
      var next := AddSection(sections, keys[0]);
      assert NoDuplicates(next);
      SectionsFromSpec(keys[1..], next);
      forall x ensures x in SectionsFrom(keys, sections) <==>
                 x in sections || exists k | k in keys :: SectionOf(k) == Some(x) {
        if exists k | k in keys[1..] :: SectionOf(k) == Some(x) {
          var k :| k in keys[1..] && SectionOf(k) == Some(x);
          assert k in keys;
        }
        if exists k | k in keys :: SectionOf(k) == Some(x) {
          var k :| k in keys && SectionOf(k) == Some(x);
          if k != keys[0] {
            assert k in keys[1..];
          }
        }
      }
    }
  }

  /** One GetKeys step: the part after the prefix of a key lying under it. */
  function KeysUnder(keys: seq<string>, prefix: string): seq<string>
    decreases |keys|
  {
    if keys == [] then []
    else (if HasPrefix(keys[0], prefix) then [keys[0][|prefix|..]] else []) + KeysUnder(keys[1..], prefix)
  }

  /** Filtering one more key appends its suffix, if it has the prefix. */
  lemma {:induction false} KeysUnderSnoc(keys: seq<string>, k: string, prefix: string)
    ensures KeysUnder(keys + [k], prefix) == KeysUnder(keys, prefix) + KeysUnder([k], prefix)
    decreases |keys|
  {
    var t := KeysUnder([k], prefix);
    if keys == [] {
      assert [] + [k] == [k];
    } else {
      var ks := keys + [k];
      assert ks[0] == keys[0] && ks[1..] == keys[1..] + [k];
      var h := if HasPrefix(keys[0], prefix) then [keys[0][|prefix|..]] else [];
      KeysUnderSnoc(keys[1..], k, prefix);
      assert KeysUnder(ks, prefix) == h + (KeysUnder(keys[1..], prefix) + t);
      assert KeysUnder(keys, prefix) == h + KeysUnder(keys[1..], prefix);
    }
  }

  /** After RemoveSection has looked at `keys[..i]`: the prefixed ones among them are gone, nothing else changed. */
  predicate RemovedUpTo(m0: map<string, string>, m: map<string, string>, keys: seq<string>, i: nat, prefix: string)
  {
    i <= |keys|
    && (forall k | k in m0 && !HasPrefix(k, prefix) :: k in m)
    && (forall k | k in m :: k in m0 && m[k] == m0[k])
    && (forall j | 0 <= j < i :: HasPrefix(keys[j], prefix) ==> keys[j] !in m)
  }

  /** One step of the RemoveSection loop keeps RemovedUpTo. */
  lemma RemovedStep(m0: map<string, string>, m: map<string, string>, keys: seq<string>, i: nat, prefix: string)
    requires RemovedUpTo(m0, m, keys, i, prefix) && i < |keys|
    ensures RemovedUpTo(m0, if HasPrefix(keys[i], prefix) then m - {keys[i]} else m, keys, i + 1, prefix)
  {
  }

  /** Once every key has been looked at, exactly the keys under the prefix are gone. */
  lemma RemovedAll(m0: map<string, string>, m: map<string, string>, keys: seq<string>, prefix: string)
    requires RemovedUpTo(m0, m, keys, |keys|, prefix) && keys == SortedKeys(m0.Keys)
    ensures forall k :: k in m <==> k in m0 && !HasPrefix(k, prefix)
    ensures forall k | k in m :: m[k] == m0[k]
    ensures !exists k | k in m :: HasPrefix(k, prefix)
  {
    forall k | k in m ensures !HasPrefix(k, prefix) {
      assert k in keys;
      var j :| 0 <= j < |keys| && keys[j] == k;
    }
  }

  /** GetKeys returns exactly the suffixes `k` for which `prefix + k` is a stored key. */
  lemma {:induction false} KeysUnderSpec(keys: seq<string>, prefix: string)
    ensures forall x :: x in KeysUnder(keys, prefix) <==> prefix + x in keys
    decreases |keys|
  {
    if keys != [] {
      KeysUnderSpec(keys[1..], prefix);
      forall x ensures x in KeysUnder(keys, prefix) <==> prefix + x in keys {
        if HasPrefix(keys[0], prefix) {
          assert keys[0] == prefix + keys[0][|prefix|..];
        }
        if prefix + x == keys[0] {
          assert (prefix + x)[..|prefix|] == prefix;
          assert HasPrefix(keys[0], prefix) && keys[0][|prefix|..] == x;
        }
        if prefix + x in keys && prefix + x != keys[0] {
          assert prefix + x in keys[1..];
        }
        if prefix + x in keys[1..] {
          assert prefix + x in keys;
        }
      }
    }
  }

  /** The GetKeys fold over a map's keys in map order lists `x` exactly when `prefix + x` is stored. */
  lemma KeysUnderOfMap(data: map<string, string>, prefix: string)
    ensures forall x :: x in KeysUnder(SortedKeys(data.Keys), prefix) <==> prefix + x in data
  {
    KeysUnderSpec(SortedKeys(data.Keys), prefix);
  }

  /** GetKeys of a non-empty section lists exactly the keys HasKey finds in it. */
  lemma GetKeysMatchesHasKey(data: map<string, string>, section: string, key: string)
    requires section != ""
    ensures key in KeysUnder(SortedKeys(data.Keys), section + ".") <==> HasKey(data, section, key)
  {
    KeysUnderOfMap(data, section + ".");
    assert CreateKey(section, key) == section + "." + key;
  }

  /** The GetSections fold over a map's keys lists each section once, exactly those of keys with a '.'. */
  lemma SectionsOfMap(data: map<string, string>)
    ensures NoDuplicates(SectionsFrom(SortedKeys(data.Keys), []))
    ensures forall x :: x in SectionsFrom(SortedKeys(data.Keys), []) <==> exists k | k in data :: SectionOf(k) == Some(x)
  {
    var keys := SortedKeys(data.Keys);
    SectionsFromSpec(keys, []);
    forall x ensures (exists k | k in keys :: SectionOf(k) == Some(x)) <==> exists k | k in data :: SectionOf(k) == Some(x) {
      if exists k | k in data :: SectionOf(k) == Some(x) {
        var k :| k in data && SectionOf(k) == Some(x);
        assert k in keys;
      }
    }
  }

  /** One step of the GetSections loop. */
  lemma SectionsFromStep(keys: seq<string>, i: nat, sections: seq<string>)
    requires i < |keys|
    ensures SectionsFrom(keys[i..], sections) == SectionsFrom(keys[i + 1..], AddSection(sections, keys[i]))
  {
    assert keys[i..][0] == keys[i] && keys[i..][1..] == keys[i + 1..];
  }

  // ---------------------------------------------------------------------------
  // The store
  // ---------------------------------------------------------------------------

  class ConfigManager {
    /** `config_data_`. */
    var data: map<string, string>

    constructor ()
      ensures data == map[]
    {
      data := map[];
    }

    /** The body of the LoadFromFile loop for one parsed line: a header switches section, an entry stores its value. */
    method ApplyLine(section: string, line: Line) returns (next: string)
      modifies this
      ensures LoadState(data, next) == Apply(LoadState(old(data), section), line)
    {
      next := section;
      match line {
        case Skip =>
        case Header(name) => next := name;
        case Entry(key, value) => data := data[CreateKey(section, key) := value];
      }
    }

    /**
     * `LoadFromFile`: fails without touching the map when the file cannot be opened; otherwise
     * folds the file's lines (read by getline) into the map and succeeds.
     */
    method LoadFromFile(isOpen: bool, lines: seq<string>) returns (ok: bool)
      modifies this
      ensures ok == isOpen
      ensures !isOpen ==> data == old(data)
      ensures isOpen ==> data == Load(LoadState(old(data), ""), Parsed(lines)).data
    {
      if !isOpen {
        return false;
      }
      ghost var ps := Parsed(lines);
      ghost var st0 := LoadState(old(data), "");
      var section := "";
      var i := 0;
      while i < |lines|
        invariant 0 <= i <= |lines|
        invariant LoadState(data, section) == Load(st0, ps[..i])
      {
        LoadSnoc(st0, ps, i);
        section := ApplyLine(section, ParseLine(lines[i]));
        i := i + 1;
      }
      assert ps[..i] == ps;
      return true;
    }

    /** `SetString`: stores or overwrites one key and nothing else. */
    method SetString(section: string, key: string, value: string)
      modifies this
      ensures data == old(data)[CreateKey(section, key) := value]
      ensures HasKey(data, section, key) && forall d :: GetString(data, section, key, d) == value
    {
      var full := CreateKey(section, key);
      data := data[full := value];
    }

    /** `SetBool`: stores "true" or "false", which GetBool reads back as the same value. */
    method SetBool(section: string, key: string, value: bool)
      modifies this
      ensures data == old(data)[CreateKey(section, key) := BoolText(value)]
      ensures forall d :: GetBool(data, section, key, d) == value
    {
      SetString(section, key, if value then "true" else "false");
      forall d ensures GetBool(data, section, key, d) == value {
        GetBoolOfBoolText(old(data), section, key, value, d);
      }
    }

    /** `HasSection`: scans the keys in order for one starting with "section.". */
    method HasSection(section: string) returns (r: bool)
      ensures r <==> exists k | k in data :: HasPrefix(k, section + ".")
    {
      var prefix := section + ".";
      var keys := SortedKeys(data.Keys);
      var i := 0;
      while i < |keys|
        invariant 0 <= i <= |keys|
        invariant forall j | 0 <= j < i :: !HasPrefix(keys[j], prefix)
      {
        if |keys[i]| >= |prefix| && keys[i][..|prefix|] == prefix {
          assert keys[i] in data;
          return true;
        }
        i := i + 1;
      }
      forall k | k in data ensures !HasPrefix(k, prefix) {
        assert k in keys;
      }
      return false;
    }

    /** `GetSections`: the distinct sections in order of first appearance in map order. */
    method GetSections() returns (sections: seq<string>)
      ensures sections == SectionsFrom(SortedKeys(data.Keys), [])
      ensures NoDuplicates(sections)
      ensures forall x :: x in sections <==> exists k | k in data :: SectionOf(k) == Some(x)
    {
      var keys := SortedKeys(data.Keys);
      sections := [];
      var i := 0;
      while i < |keys|
        invariant 0 <= i <= |keys|
        invariant SectionsFrom(keys[i..], sections) == SectionsFrom(keys, [])
      {
        SectionsFromStep(keys, i, sections);
        var key := keys[i];
        var dot := Find(key, '.');
        if dot != |key| {
          var section := key[..dot];
          if section !in sections {
            sections := sections + [section];
          }
        }
        i := i + 1;
      }
      assert keys[i..] == [];
      SectionsOfMap(data);
    }

    /** `GetKeys`: the keys under "section." in map order, with the prefix removed. */
    method GetKeys(section: string) returns (keys: seq<string>)
      ensures keys == KeysUnder(SortedKeys(data.Keys), section + ".")
      ensures forall x :: x in keys <==> section + "." + x in data
    {
      var prefix := section + ".";
      var all := SortedKeys(data.Keys);
      keys := [];
      var i := 0;
      while i < |all|
        invariant 0 <= i <= |all|
        invariant keys == KeysUnder(all[..i], prefix)
      {
        KeysUnderSnoc(all[..i], all[i], prefix);
        assert all[..i + 1] == all[..i] + [all[i]];
        if HasPrefix(all[i], prefix) {
          keys := keys + [all[i][|prefix|..]];
        }
        i := i + 1;
      }
      assert all[..i] == all;
      KeysUnderOfMap(data, prefix);
    }

    /** `RemoveSection`: erases exactly the keys starting with "section."; HasSection is then false. */
    method RemoveSection(section: string)
      modifies this
      ensures forall k :: k in data <==> k in old(data) && !HasPrefix(k, section + ".")
      ensures forall k | k in data :: data[k] == old(data)[k]
      ensures !exists k | k in data :: HasPrefix(k, section + ".")
    {
      var prefix := section + ".";
      var keys := SortedKeys(data.Keys);
      var i := 0;
      while i < |keys|
        invariant 0 <= i <= |keys|
        invariant RemovedUpTo(old(data), data, keys, i, prefix)
      {
        RemovedStep(old(data), data, keys, i, prefix);
        if HasPrefix(keys[i], prefix) {
          data := data - {keys[i]};
        }
        i := i + 1;
      }
      RemovedAll(old(data), data, keys, prefix);
    }

    /** `RemoveKey`: erases one stored key, if present, and nothing else. */
    method RemoveKey(section: string, key: string)
      modifies this
      ensures data == old(data) - {CreateKey(section, key)}
      ensures !HasKey(data, section, key)
    {
      var full := CreateKey(section, key);
      data := data - {full};
    }

    /** `Clear`. */
    method Clear()
      modifies this
      ensures data == map[]
    {
      data := map[];
    }
  }
}
