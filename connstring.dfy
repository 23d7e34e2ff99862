/** The parse of an ODBC connection string into a dictionary, as the one
    expression at azure_cli.py:93 does it:

      strip every leading and trailing '"', then every trailing ';',
      split on ';', split each segment on '=', and map element 0 of each
      segment's pieces to element 1, a later segment overwriting an earlier
      one with the same key.

    A segment without '=' has a single piece, so element 1 raises IndexError. */
module ConnectionString {
  import opened PyStr
  import opened Outcomes

  type Properties = map<string, string>

  const Quote: set<char> := {'"'}
  const Semicolon: set<char> := {';'}

  /** `s.strip('"').rstrip(';')`. */
  function Normalize(s: string): string
  {
    RStrip(Strip(s, Quote), Semicolon)
  }

  /** `s.strip('"').rstrip(';').split(';')`. */
  function Segments(s: string): seq<string>
  {
    Split(Normalize(s), ';')
  }

  /** `(p[0], p[1])` for `p = seg.split('=')`; IndexError when there is no
      element 1, which happens exactly when seg holds no '='. */
  function SplitProperty(seg: string): (r: Result<(string, string)>)
    ensures r.Ok? <==> '=' in seg
    ensures r.Err? ==> r.error == IndexError
  {
    var parts := Split(seg, '=');
    if |parts| < 2 then Err(IndexError) else Ok((parts[0], parts[1]))
  }

  /** The key of a segment: the text before its first '='. */
  function Key(seg: string): string
  {
    UpTo(seg, '=')
  }

  /** The value of a segment: the text between its first and its second '='
      (or the end of the segment). */
  function Value(seg: string): string
  {
    var k := Key(seg);
    if |k| < |seg| then UpTo(seg[|k| + 1..], '=') else ""
  }

  /** The list comprehension `[seg.split('=') for seg in segs]` together with
      the subscripts `prop[0]`, `prop[1]` that the dict comprehension applies
      to each of its results. In Python the list comprehension itself always
      succeeds; the IndexError comes from `prop[1]` on a segment without '='.
      The outcome is the same: an error exactly when some segment has no '=',
      and otherwise the pairs of all segments in order. */
  function SplitProperties(segs: seq<string>): (r: Result<seq<(string, string)>>)
    ensures r.Ok? <==> forall k :: 0 <= k < |segs| ==> '=' in segs[k]
    ensures r.Err? ==> r.error == IndexError
    ensures r.Ok? ==> |r.value| == |segs|
    ensures r.Ok? ==> forall k :: 0 <= k < |segs| ==> SplitProperty(segs[k]) == Ok(r.value[k])
    decreases |segs|
  {
    if segs == [] then Ok([])
    else match SplitProperty(segs[0])
      case Err(e) => Err(e)
      case Ok(p) =>
        match SplitProperties(segs[1..])
        case Err(e) => Err(e)
        case Ok(ps) =>
          assert forall k :: 1 <= k < |segs| ==> segs[k] == segs[1..][k - 1];
          Ok([p] + ps)
  }

  /** The dictionary comprehension: its keys are the keys of ps, and each key
      holds the value of the last pair that has it. */
  function ToDict(ps: seq<(string, string)>): (m: Properties)
    ensures m.Keys == set k | 0 <= k < |ps| :: ps[k].0
    ensures forall k :: 0 <= k < |ps| && (forall j :: k < j < |ps| ==> ps[j].0 != ps[k].0) ==>
              m[ps[k].0] == ps[k].1
    decreases |ps|
  {
    if ps == [] then map[]
    else
      var init := ps[..|ps| - 1];
      var last := ps[|ps| - 1];
      assert forall k :: 0 <= k < |init| ==> init[k] == ps[k];
      assert (set k | 0 <= k < |ps| :: ps[k].0) == (set k | 0 <= k < |init| :: init[k].0) + {last.0};
      ToDict(init)[last.0 := last.1]
  }

  /** The whole expression at azure_cli.py:93. */
  function Parse(s: string): (r: Result<Properties>)
    ensures r.Ok? <==> forall k :: 0 <= k < |Segments(s)| ==> '=' in Segments(s)[k]
    ensures r.Err? ==> r.error == IndexError
  {
    match SplitProperties(Segments(s))
    case Err(e) => Err(e)
    case Ok(ps) => Ok(ToDict(ps))
  }

  /** A character the text lacks is not in its normalized form either. */
  lemma NormalizeWithin(s: string, c: char)
    requires c !in s
    ensures c !in Normalize(s)
  {
    var t := Strip(s, Quote);
    var i: nat :| StrippedAt(t, s, Quote, i);
    forall j | 0 <= j < |t| ensures t[j] != c {
      assert t[j] == s[i + j];
    }
    var n := RStrip(t, Semicolon);
    forall j | 0 <= j < |n| ensures n[j] != c {
      assert n[j] == t[j];
    }
  }

  /** A connection string without any '=' raises IndexError: its first
      segment has no element 1. This covers the empty text and any text made
      only of '"' and ';'. */
  lemma ParseWithoutEquals(s: string)
    requires '=' !in s
    ensures Parse(s) == Err(IndexError)
  {
    NormalizeWithin(s, '=');
    var segs := Segments(s);
    JoinStartsWithFirst(segs, ';');
  }

  /** `''.split(';')` is `['']`, so the empty connection string raises
      IndexError; this is why every round trip below needs a pair. */
  lemma ParseEmpty()
    ensures Parse("") == Err(IndexError)
  {
    ParseWithoutEquals("");
  }

  /** A segment's pieces are its key and its value as defined above. */
  lemma SplitPropertyFields(seg: string)
    requires '=' in seg
    ensures SplitProperty(seg) == Ok((Key(seg), Value(seg)))
  {
    var i := |Key(seg)|;
    assert i < |seg| && seg[i] == '=';
    SplitAtIndex(seg, '=', i);
    SplitHead(seg, '=');
    SplitHead(seg[i + 1..], '=');
  }

  /** The pairs the comprehension builds are the segments' keys and values. */
  lemma SplitPropertiesFields(segs: seq<string>)
    requires SplitProperties(segs).Ok?
    ensures forall k :: 0 <= k < |segs| ==>
      SplitProperties(segs).value[k] == (Key(segs[k]), Value(segs[k]))
  {
    forall k | 0 <= k < |segs| ensures SplitProperties(segs).value[k] == (Key(segs[k]), Value(segs[k])) {
      SplitPropertyFields(segs[k]);
    }
  }

  /** The keys of a successful parse are exactly the keys of the segments. */
  lemma ParseKeys(s: string)
    requires Parse(s).Ok?
    ensures Parse(s).value.Keys == set k | 0 <= k < |Segments(s)| :: Key(Segments(s)[k])
  {
    var segs := Segments(s);
    var ps := SplitProperties(segs).value;
    assert Parse(s).value == ToDict(ps);
    SplitPropertiesFields(segs);
    assert (set k | 0 <= k < |ps| :: ps[k].0) == set k | 0 <= k < |segs| :: Key(segs[k]);
  }

  lemma LastSegmentWins(segs: seq<string>, i: nat)
    requires SplitProperties(segs).Ok?
    requires i < |segs|
    requires forall j :: i < j < |segs| ==> Key(segs[j]) != Key(segs[i])
    ensures Key(segs[i]) in ToDict(SplitProperties(segs).value)
    ensures ToDict(SplitProperties(segs).value)[Key(segs[i])] == Value(segs[i])
  {
    var ps := SplitProperties(segs).value;
    SplitPropertyFields(segs[i]);
    assert ps[i] == (Key(segs[i]), Value(segs[i]));
    forall j | i < j < |ps| ensures ps[j].0 != ps[i].0 {
      SplitPropertyFields(segs[j]);
    }
  }

  /** The value a key holds after a successful parse is the value of the last
      segment with that key. */
  lemma ParseLastSegmentWins(s: string, i: nat)
    requires Parse(s).Ok?
    requires i < |Segments(s)|
    requires forall j :: i < j < |Segments(s)| ==> Key(Segments(s)[j]) != Key(Segments(s)[i])
    ensures Key(Segments(s)[i]) in Parse(s).value
    ensures Parse(s).value[Key(Segments(s)[i])] == Value(Segments(s)[i])
  {
    var segs := Segments(s);
    assert Parse(s).value == ToDict(SplitProperties(segs).value);
    LastSegmentWins(segs, i);
  }

  /** The canonical text of a list of pairs: `k=v` for each pair, each one
      followed by ';'. */
  function Serialize(ps: seq<(string, string)>): string
    decreases |ps|
  {
    if ps == [] then "" else ps[0].0 + "=" + ps[0].1 + ";" + Serialize(ps[1..])
  }

  /** Pairs that serialize without ambiguity: no key or value holds ';' or
      '=', and the text does not open with '"' (the strip would eat it). */
  ghost predicate Serializable(ps: seq<(string, string)>)
  {
    && (forall k :: 0 <= k < |ps| ==> ';' !in ps[k].0 && '=' !in ps[k].0)
    && (forall k :: 0 <= k < |ps| ==> ';' !in ps[k].1 && '=' !in ps[k].1)
    && (|ps| > 0 && |ps[0].0| > 0 ==> ps[0].0[0] != '"')
  }

  function Segment(p: (string, string)): string
  {
    p.0 + "=" + p.1
  }

  lemma {:induction false} SerializeAsJoin(ps: seq<(string, string)>)
    requires |ps| >= 1
    ensures Serialize(ps) == Join(SegmentsOf(ps), ';') + ";"
    decreases |ps|
  {
    if |ps| > 1 {
      SerializeAsJoin(ps[1..]);
      assert SegmentsOf(ps)[1..] == SegmentsOf(ps[1..]);
    }
  }

  function SegmentsOf(ps: seq<(string, string)>): (segs: seq<string>)
    ensures |segs| == |ps|
    ensures forall k :: 0 <= k < |ps| ==> segs[k] == Segment(ps[k])
  {
    seq(|ps|, k requires 0 <= k < |ps| => Segment(ps[k]))
  }

  lemma SplitPropertyOfSegment(p: (string, string))
    requires '=' !in p.0 && '=' !in p.1
    ensures SplitProperty(Segment(p)) == Ok(p)
  {
    SplitAtFirst(p.0, p.1, '=');
    SplitWithoutSeparator(p.1, '=');
  }

  /** The canonical text opens with the first key, or with '=' when that key
      is empty: never with '"'. */
  lemma SerializedOpening(ps: seq<(string, string)>)
    requires |ps| >= 1 && Serializable(ps)
    ensures |Serialize(ps)| > 0 && Serialize(ps)[0] != '"'
  {
    var segs := SegmentsOf(ps);
    SerializeAsJoin(ps);
    JoinStartsWithFirst(segs, ';');
    assert segs[0] == ps[0].0 + "=" + ps[0].1;
  }

  /** The joined segments close with the last value, or with '=' when that
      value is empty: never with ';'. */
  lemma JoinedClosing(ps: seq<(string, string)>)
    requires |ps| >= 1 && Serializable(ps)
    ensures var body := Join(SegmentsOf(ps), ';'); |body| > 0 && body[|body| - 1] != ';'
  {
    var segs := SegmentsOf(ps);
    JoinEndsWithLast(segs, ';');
    var last := segs[|segs| - 1];
    assert last == ps[|ps| - 1].0 + "=" + ps[|ps| - 1].1;
  }

  /** A text that neither opens nor closes with '"' keeps everything but its
      trailing ';'. */
  lemma NormalizeSingleSemicolon(text: string)
    requires |text| >= 2 && text[0] != '"' && text[|text| - 1] == ';' && text[|text| - 2] != ';'
    ensures Normalize(text) == text[..|text| - 1]
  {
    assert LStrip(text, Quote) == text;
    assert Strip(text, Quote) == text;
    var body := text[..|text| - 1];
    assert body[|body| - 1] == text[|text| - 2];
    assert RStrip(body, Semicolon) == body;
  }

  /** The canonical text survives the strip: it does not open with '"', and it
      ends with exactly one ';'. */
  lemma NormalizeSerialized(ps: seq<(string, string)>)
    requires |ps| >= 1 && Serializable(ps)
    ensures Normalize(Serialize(ps)) == Join(SegmentsOf(ps), ';')
  {
    var body := Join(SegmentsOf(ps), ';');
    var text := Serialize(ps);
    SerializeAsJoin(ps);
    SerializedOpening(ps);
    JoinedClosing(ps);
    assert text[..|text| - 1] == body;
    NormalizeSingleSemicolon(text);
  }

  /** Each canonical segment splits back into its pair. */
  lemma SplitSegmentsOf(ps: seq<(string, string)>)
    requires Serializable(ps)
    ensures SplitProperties(SegmentsOf(ps)) == Ok(ps)
  {
    var segs := SegmentsOf(ps);
    forall k | 0 <= k < |segs| ensures SplitProperty(segs[k]) == Ok(ps[k]) {
      SplitPropertyOfSegment(ps[k]);
    }
    var r := SplitProperties(segs);
    assert r.Ok?;
    assert r.value == ps;
  }

  /** The segments of the canonical text are the pairs' segments. */
  lemma SegmentsOfSerialized(ps: seq<(string, string)>)
    requires |ps| >= 1 && Serializable(ps)
    ensures Segments(Serialize(ps)) == SegmentsOf(ps)
  {
    var segs := SegmentsOf(ps);
    NormalizeSerialized(ps);
    forall k | 0 <= k < |segs| ensures ';' !in segs[k] {
      assert segs[k] == ps[k].0 + "=" + ps[k].1;
    }
    SplitJoin(segs, ';');
  }

  /** A parse is the dictionary of the pairs its segments split into. */
  lemma ParseOfPairs(s: string, ps: seq<(string, string)>)
    requires SplitProperties(Segments(s)) == Ok(ps)
    ensures Parse(s) == Ok(ToDict(ps))
  {
  }

  /** Round trip: parsing the canonical text of a non-empty list of
      serializable pairs gives the dictionary those pairs build. */
  lemma RoundTrip(ps: seq<(string, string)>)
    requires |ps| >= 1 && Serializable(ps)
    ensures Parse(Serialize(ps)) == Ok(ToDict(ps))
  {
    SegmentsOfSerialized(ps);
    SplitSegmentsOf(ps);
    ParseOfPairs(Serialize(ps), ps);
  }

  /** Some enumeration of a dictionary's entries: every pair is an entry, and
      every key has a pair. */
  ghost function EntriesOf(m: Properties): (ps: seq<(string, string)>)
    ensures forall k :: 0 <= k < |ps| ==> ps[k].0 in m && ps[k].1 == m[ps[k].0]
    ensures forall key :: key in m ==> exists k :: 0 <= k < |ps| && ps[k].0 == key
    decreases |m|
  {
    if |m| == 0 then []
    else
      var key :| key in m;
      var rest := m - {key};
      assert |rest| == |m| - 1;
      var init := EntriesOf(rest);
      var ps := init + [(key, m[key])];
      assert forall key' :: key' in m ==> exists k :: 0 <= k < |ps| && ps[k].0 == key' by {
        forall key' | key' in m ensures exists k :: 0 <= k < |ps| && ps[k].0 == key' {
          if key' == key {
            assert ps[|init|].0 == key;
          } else {
            assert key' in rest;
            var k :| 0 <= k < |init| && init[k].0 == key';
            assert ps[k] == init[k];
          }
        }
      }
      ps
  }

  /** Pairs that all agree with m build a dictionary that agrees with m. */
  lemma {:induction false} ToDictAgrees(ps: seq<(string, string)>, m: Properties)
    requires forall k :: 0 <= k < |ps| ==> ps[k].0 in m && ps[k].1 == m[ps[k].0]
    ensures forall key :: key in ToDict(ps) ==> key in m && ToDict(ps)[key] == m[key]
    decreases |ps|
  {
    if ps != [] {
      var init := ps[..|ps| - 1];
      ToDictAgrees(init, m);
      assert ToDict(ps) == ToDict(init)[ps[|ps| - 1].0 := ps[|ps| - 1].1];
    }
  }

  /** When the pairs carry every key of m, every key of m is a key of the
      dictionary they build. */
  lemma ToDictCovers(ps: seq<(string, string)>, m: Properties)
    requires forall key :: key in m ==> exists k :: 0 <= k < |ps| && ps[k].0 == key
    ensures m.Keys <= ToDict(ps).Keys
  {
    var d := ToDict(ps);
    forall key | key in m ensures key in d {
      var k :| 0 <= k < |ps| && ps[k].0 == key;
      assert ps[k].0 in d.Keys;
    }
  }

  /** Pairs that agree with m and cover its keys build m. */
  lemma ToDictOfEntries(ps: seq<(string, string)>, m: Properties)
    requires forall k :: 0 <= k < |ps| ==> ps[k].0 in m && ps[k].1 == m[ps[k].0]
    requires forall key :: key in m ==> exists k :: 0 <= k < |ps| && ps[k].0 == key
    ensures ToDict(ps) == m
  {
    var d := ToDict(ps);
    ToDictAgrees(ps, m);
    ToDictCovers(ps, m);
    assert d.Keys == m.Keys;
    MapExtensionality(d, m);
  }

  lemma MapExtensionality(d: Properties, m: Properties)
    requires d.Keys == m.Keys
    requires forall key :: key in d ==> d[key] == m[key]
    ensures d == m
  {
  }

  /** Round trip for a whole dictionary: a non-empty dictionary whose keys
      and values hold no ';' or '=' and whose keys do not open with '"' is
      the parse of some canonical text. */
  lemma DictionaryRoundTrip(m: Properties)
    requires |m| >= 1
    requires forall key :: key in m ==> ';' !in key && '=' !in key && ';' !in m[key] && '=' !in m[key]
    requires forall key :: key in m && |key| > 0 ==> key[0] != '"'
    ensures Parse(Serialize(EntriesOf(m))) == Ok(m)
  {
    var ps := EntriesOf(m);
    var key :| key in m;
    assert |ps| > 0 && ps[0].0 in m;
    RoundTrip(ps);
    ToDictOfEntries(ps, m);
  }

  /** The pairs a successful parse builds its dictionary from. */
  function ParsedPairs(s: string): seq<(string, string)>
  {
    var r := SplitProperties(Segments(s));
    if r.Ok? then r.value else []
  }

  /** The pairs of the canonical text are the pairs it was written from. */
  lemma ParsedPairsOfCanonical(ps: seq<(string, string)>)
    requires |ps| >= 1 && Serializable(ps)
    ensures ParsedPairs(Serialize(ps)) == ps
  {
    SegmentsOfSerialized(ps);
    SplitSegmentsOf(ps);
  }

  /** Parsing the canonical re-serialization of a parsed text gives the same
      dictionary, and re-serializing yields the same pairs. */
  lemma ReparseCanonical(s: string)
    requires Parse(s).Ok?
    ensures Parse(Serialize(ParsedPairs(s))) == Parse(s)
    ensures ParsedPairs(Serialize(ParsedPairs(s))) == ParsedPairs(s)
  {
    var n := Normalize(s);
    var segs := Segments(s);
    var ps := ParsedPairs(s);
    forall k | 0 <= k < |segs| ensures ps[k] == (Key(segs[k]), Value(segs[k])) {
      SplitPropertyFields(segs[k]);
    }
    forall k | 0 <= k < |ps|
      ensures ';' !in ps[k].0 && '=' !in ps[k].0 && ';' !in ps[k].1 && '=' !in ps[k].1
    {
      var parts := Split(segs[k], '=');
      assert ps[k] == (parts[0], parts[1]);
    }
    // The first key is a prefix of the normalized text, which does not open with '"'.
    var t := Strip(s, Quote);
    SplitHead(n, ';');
    if |ps[0].0| > 0 {
      assert ps[0].0 == UpTo(segs[0], '=');
      assert segs[0] == UpTo(n, ';');
      assert ps[0].0[0] == segs[0][0] == n[0] == t[0];
    }
    RoundTrip(ps);
    ParsedPairsOfCanonical(ps);
  }

  const ExamplePairs: seq<(string, string)> :=
    [("Server", "tcp:foo.database.windows.net"), ("Database", "bar"), ("Uid", "x"), ("Pwd", "y")]

  /** One pair followed by more: its segment, then the rest. */
  lemma SerializeCons(p: (string, string), ps: seq<(string, string)>)
    ensures Serialize([p] + ps) == p.0 + "=" + p.1 + ";" + Serialize(ps)
  {
    assert ([p] + ps)[1..] == ps;
  }

  lemma SerializeExampleTail()
    ensures Serialize(ExamplePairs[1..]) == "Database=bar;Uid=x;Pwd=y;"
  {
    assert ExamplePairs[1..] == [("Database", "bar"), ("Uid", "x"), ("Pwd", "y")];
    assert Serialize([("Pwd", "y")]) == "Pwd=y;" by {
      SerializeCons(("Pwd", "y"), []);
      assert [("Pwd", "y")] + [] == [("Pwd", "y")];
    }
    assert Serialize([("Uid", "x"), ("Pwd", "y")]) == "Uid=x;Pwd=y;" by {
      SerializeCons(("Uid", "x"), [("Pwd", "y")]);
    }
    SerializeCons(("Database", "bar"), [("Uid", "x"), ("Pwd", "y")]);
  }

  lemma ExampleFirstSegment()
    ensures "Server" + "=" + "tcp:foo.database.windows.net" + ";" == "Server=tcp:foo.database.windows.net;"
  {
    assert "Server" + "=" == "Server=";
    assert "Server=" + "tcp:foo.database.windows.net" == "Server=tcp:foo.database.windows.net";
  }

  lemma ExampleText()
    ensures "Server" + "=" + "tcp:foo.database.windows.net" + ";" + "Database=bar;Uid=x;Pwd=y;"
         == "Server=tcp:foo.database.windows.net;Database=bar;Uid=x;Pwd=y;"
  {
    ExampleFirstSegment();
  }

  lemma SerializeExample()
    ensures Serialize(ExamplePairs) == "Server=tcp:foo.database.windows.net;Database=bar;Uid=x;Pwd=y;"
  {
    SerializeExampleTail();
    SerializeCons(ExamplePairs[0], ExamplePairs[1..]);
    assert ExamplePairs == [ExamplePairs[0]] + ExamplePairs[1..];
    ExampleText();
  }

  lemma ExampleSerializable()
    ensures Serializable(ExamplePairs)
  {
    var ps := ExamplePairs;
    assert ';' !in "tcp:foo.database.windows.net" && '=' !in "tcp:foo.database.windows.net";
    assert forall k :: 0 <= k < |ps| ==> ';' !in ps[k].0 && '=' !in ps[k].0;
    assert forall k :: 0 <= k < |ps| ==> ';' !in ps[k].1 && '=' !in ps[k].1;
  }

  lemma ToDictExample()
    ensures ToDict(ExamplePairs)
         == map["Server" := "tcp:foo.database.windows.net", "Database" := "bar", "Uid" := "x", "Pwd" := "y"]
  {
    var ps := ExamplePairs;
    assert ps[..3] == [ps[0], ps[1], ps[2]];
    assert ps[..3][..2] == [ps[0], ps[1]];
    assert ps[..3][..2][..1] == [ps[0]];
    assert ps[..3][..2][..1][..0] == [];
  }

  /** The example of a connection string in the shape the CLI emits: exactly
      its four keys, each with its own value. */
  lemma ParseExample()
    ensures Parse("Server=tcp:foo.database.windows.net;Database=bar;Uid=x;Pwd=y;")
         == Ok(map["Server" := "tcp:foo.database.windows.net", "Database" := "bar", "Uid" := "x", "Pwd" := "y"])
  {
    SerializeExample();
    ToDictExample();
    ExampleSerializable();
    RoundTrip(ExamplePairs);
  }

  function Repeat(c: char, n: nat): (r: string)
    ensures |r| == n && forall k :: 0 <= k < n ==> r[k] == c
  {
    seq(n, _ => c)
  }

  lemma {:induction false} LStripDropsPrefix(t: string, s: string, cs: set<char>)
    requires forall k :: 0 <= k < |t| ==> t[k] in cs
    ensures LStrip(t + s, cs) == LStrip(s, cs)
    decreases |t|
  {
    if |t| > 0 {
      assert (t + s)[0] == t[0] && (t + s)[1..] == t[1..] + s;
      LStripDropsPrefix(t[1..], s, cs);
      assert LStrip(t + s, cs) == LStrip(t[1..] + s, cs);
    } else {
      assert t + s == s;
    }
  }

  lemma {:induction false} RStripDropsSuffix(s: string, t: string, cs: set<char>)
    requires forall k :: 0 <= k < |t| ==> t[k] in cs
    ensures RStrip(s + t, cs) == RStrip(s, cs)
    decreases |t|
  {
    if |t| > 0 {
      assert (s + t)[|s + t| - 1] == t[|t| - 1] && (s + t)[..|s + t| - 1] == s + t[..|t| - 1];
      RStripDropsSuffix(s, t[..|t| - 1], cs);
      assert RStrip(s + t, cs) == RStrip(s + t[..|t| - 1], cs);
    } else {
      assert s + t == s;
    }
  }

  /** Left-stripping a text that holds some character outside cs commutes with
      appending. */
  lemma {:induction false} LStripAppend(s: string, t: string, cs: set<char>, i: nat)
    requires i < |s| && s[i] !in cs
    ensures LStrip(s + t, cs) == LStrip(s, cs) + t
    decreases |s|
  {
    if s[0] in cs {
      assert (s + t)[1..] == s[1..] + t;
      LStripAppend(s[1..], t, cs, i - 1);
    }
  }

  lemma StripIgnoresQuoteWrapping(s: string, a: nat, b: nat)
    ensures Strip(Repeat('"', a) + s + Repeat('"', b), Quote) == Strip(s, Quote)
  {
    var qa, qb := Repeat('"', a), Repeat('"', b);
    assert qa + s + qb == qa + (s + qb);
    LStripDropsPrefix(qa, s + qb, Quote);
    if i :| 0 <= i < |s| && s[i] !in Quote {
      LStripAppend(s, qb, Quote, i);
      RStripDropsSuffix(LStrip(s, Quote), qb, Quote);
    } else {
      LStripDropsPrefix(s, qb, Quote);
      LStripDropsPrefix(qb, [], Quote);
      LStripDropsPrefix(s, [], Quote);
      assert qb + [] == qb && s + [] == s;
    }
  }

  /** Wrapping the whole text in any number of '"' on either side does not
      change the parse. */
  lemma ParseIgnoresQuoteWrapping(s: string, a: nat, b: nat)
    ensures Parse(Repeat('"', a) + s + Repeat('"', b)) == Parse(s)
  {
    StripIgnoresQuoteWrapping(s, a, b);
    assert Segments(Repeat('"', a) + s + Repeat('"', b)) == Segments(s);
  }

  /** A text made only of ';' normalizes to nothing. */
  lemma NormalizeSemicolons(n: nat)
    ensures Normalize(Repeat(';', n)) == ""
  {
    var t := Repeat(';', n);
    assert LStrip(t, Quote) == t;
    assert RStrip(t, Quote) == t;
    RStripDropsSuffix([], t, Semicolon);
    assert [] + t == t;
  }

  /** Semicolons after a last character other than '"' survive the quote
      strip. */
  lemma QuoteStripKeepsSemicolons(s: string, n: nat)
    requires |s| > 0 && s[|s| - 1] != '"'
    ensures Strip(s + Repeat(';', n), Quote) == LStrip(s, Quote) + Repeat(';', n)
  {
    var t := Repeat(';', n);
    LStripAppend(s, t, Quote, |s| - 1);
    var l := LStrip(s, Quote);
    assert l[|l| - 1] == s[|s| - 1];
    LastCharOfAppend(l, t, s[|s| - 1]);
  }

  /** Appending any number of ';' to a text ending in c leaves a text whose
      last character is c or ';'. */
  lemma LastCharOfAppend(l: string, t: string, c: char)
    requires |l| > 0 && l[|l| - 1] == c && c != '"'
    requires forall k :: 0 <= k < |t| ==> t[k] == ';'
    ensures RStrip(l + t, Quote) == l + t
  {
    var u := l + t;
    assert u[|u| - 1] == (if |t| == 0 then c else ';');
  }

  /** Semicolons after a last character other than '"' are past the reach of
      the quote strip, and the semicolon strip removes them. */
  lemma NormalizeAppendedSemicolons(s: string, n: nat)
    requires |s| > 0 && s[|s| - 1] != '"'
    ensures Normalize(s + Repeat(';', n)) == Normalize(s)
  {
    QuoteStripKeepsSemicolons(s, n);
    QuoteStripKeepsSemicolons(s, 0);
    assert s + Repeat(';', 0) == s;
    var l := LStrip(s, Quote);
    assert l + Repeat(';', 0) == l;
    RStripDropsSuffix(l, Repeat(';', n), Semicolon);
  }

  lemma StripThenSemicolons(s: string, n: nat)
    requires |s| == 0 || s[|s| - 1] != '"'
    ensures Normalize(s + Repeat(';', n)) == Normalize(s)
  {
    if |s| == 0 {
      assert s + Repeat(';', n) == Repeat(';', n);
      NormalizeSemicolons(n);
      NormalizeSemicolons(0);
    } else {
      NormalizeAppendedSemicolons(s, n);
    }
  }

  /** Appending any number of ';' does not change the parse, as long as the
      text does not end with '"': the quotes are stripped before the
      semicolons, so a '"' followed by ';' is kept. */
  lemma ParseIgnoresTrailingSemicolons(s: string, n: nat)
    requires |s| == 0 || s[|s| - 1] != '"'
    ensures Parse(s + Repeat(';', n)) == Parse(s)
  {
    StripThenSemicolons(s, n);
    assert Segments(s + Repeat(';', n)) == Segments(s);
  }

  lemma LStripOneQuote(u: string)
    requires |u| > 0 && u[0] != '"'
    ensures LStrip(['"'] + u, Quote) == u
  {
    assert (['"'] + u)[1..] == u;
  }

  lemma RStripOneSemicolon(w: string)
    requires |w| > 0 && w[|w| - 1] != ';'
    ensures RStrip(w + [';'], Semicolon) == w
  {
    assert (w + [';'])[..|w|] == w;
  }

  /** The quote strip stops at a final ';', so the semicolon strip then
      uncovers the closing quote and keeps it. */
  lemma NormalizeQuotedThenSemicolon(seg: string)
    requires |seg| > 0 && seg[0] != '"'
    ensures Normalize("\"" + seg + "\";") == seg + "\""
  {
    var w := seg + "\"";
    var u := w + [';'];
    assert "\"" + seg + "\";" == ['"'] + u;
    assert u[0] == seg[0];
    LStripOneQuote(u);
    assert u[|u| - 1] == ';';
    assert RStrip(u, Quote) == u;
    RStripOneSemicolon(w);
  }

  /** The proviso of ParseIgnoresTrailingSemicolons is needed: after a
      closing quote a ';' keeps that quote in the last value. */
  lemma SemicolonAfterClosingQuote(k: string, v: string)
    requires '"' !in k && ';' !in k && '=' !in k
    requires ';' !in v && '=' !in v && '"' !in v
    ensures Parse("\"" + k + "=" + v + "\";") == Ok(map[k := v + "\""])
  {
    var seg := k + "=" + v;
    var last := seg + "\"";
    QuotedSegmentShape(k, v);
    NormalizeQuotedThenSemicolon(seg);
    SplitWithoutSeparator(last, ';');
    SplitPropertyOfSegment((k, v + "\""));
    ParseSingleSegment("\"" + seg + "\";", last, k, v + "\"");
  }

  lemma QuotedSegmentShape(k: string, v: string)
    requires '"' !in k && ';' !in k && '=' !in k
    requires ';' !in v && '=' !in v && '"' !in v
    ensures var seg := k + "=" + v;
      && |seg| > 0 && seg[0] != '"'
      && "\"" + k + "=" + v + "\";" == "\"" + seg + "\";"
      && seg + "\"" == Segment((k, v + "\""))
      && ';' !in seg + "\"" && '=' !in v + "\""
  {
    var seg := k + "=" + v;
    if |k| > 0 { assert seg[0] == k[0]; } else { assert seg[0] == '='; }
  }

  /** A text without '"' or ';' is left alone by the strips. */
  lemma NormalizeClean(s: string)
    requires '"' !in s && ';' !in s
    ensures Normalize(s) == s
  {
    assert LStrip(s, Quote) == s;
    assert RStrip(s, Quote) == s;
    assert RStrip(s, Semicolon) == s;
  }

  /** A text that is one segment parses to that segment's single pair. */
  lemma ParseSingleSegment(s: string, seg: string, k: string, v: string)
    requires Segments(s) == [seg]
    requires SplitProperty(seg) == Ok((k, v))
    ensures Parse(s) == Ok(map[k := v])
  {
    assert [seg][1..] == [];
    assert SplitProperties([seg]) == Ok([(k, v)] + []);
    assert [(k, v)] + [] == [(k, v)];
    ParseOfPairs(s, [(k, v)]);
    assert [(k, v)][..0] == [];
  }

  /** Python's split('=') cuts at every '=': a segment `k=v=w` splits into
      k, v and the pieces of w. */
  lemma SplitPropertyOfTriple(k: string, v: string, w: string)
    requires '=' !in k && '=' !in v
    ensures SplitProperty(k + "=" + v + "=" + w) == Ok((k, v))
  {
    var seg := k + "=" + v + "=" + w;
    assert seg == k + ['='] + (v + ['='] + w);
    SplitAtFirst(k, v + ['='] + w, '=');
    SplitAtFirst(v, w, '=');
  }

  lemma AbsentFromTriple(k: string, v: string, w: string, c: char)
    requires c !in k && c != '=' && c !in v && c !in w
    ensures c !in k + "=" + v + "=" + w
  {
    assert k + "=" + v + "=" + w == k + ("=" + (v + ("=" + w)));
  }

  /** A segment without '"' or ';' parses to its one pair. */
  lemma ParseCleanSegment(seg: string, k: string, v: string)
    requires '"' !in seg && ';' !in seg
    requires SplitProperty(seg) == Ok((k, v))
    ensures Parse(seg) == Ok(map[k := v])
  {
    SegmentsOfClean(seg);
    ParseSingleSegment(seg, seg, k, v);
  }

  lemma SegmentsOfClean(seg: string)
    requires '"' !in seg && ';' !in seg
    ensures Segments(seg) == [seg]
  {
    NormalizeClean(seg);
    SplitWithoutSeparator(seg, ';');
  }

  /** A single segment `k=v=w` parses to the value v: whatever follows the
      second '=' is dropped. */
  lemma ParseStopsAtSecondEquals(k: string, v: string, w: string)
    requires '"' !in k && ';' !in k && '=' !in k
    requires '"' !in v && ';' !in v && '=' !in v
    requires '"' !in w && ';' !in w
    ensures Parse(k + "=" + v + "=" + w) == Ok(map[k := v])
  {
    AbsentFromTriple(k, v, w, '"');
    AbsentFromTriple(k, v, w, ';');
    SplitPropertyOfTriple(k, v, w);
    ParseCleanSegment(k + "=" + v + "=" + w, k, v);
  }
}
