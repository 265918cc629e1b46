/** region_parse: splitting a region string on '/' with strtok and assigning the
    tokens to the four bounds by position; and the "d"/"g" shorthands of main.
    The C library's atof is a parameter, and the fields region_parse leaves
    unwritten keep the values of a parameter standing for the indeterminate
    contents of its local region_t. */
module RegionParse {
  import opened Regions

  datatype Option<T> = None | Some(value: T)

  /** The strtok delimiter set of region_parse. */
  const Slash: char := '/'

  /** The fields between the slashes of `s`, empty ones included (the reference splitting). */
  function Fields(s: string): (fs: seq<string>)
    ensures |fs| >= 1
    decreases |s|
  {
    if s == [] then [[]]
    else
      var rest := Fields(s[1..]);
      if s[0] == Slash then [[]] + rest
      else [[s[0]] + rest[0]] + rest[1..]
  }

  /** No field contains a slash. */
  lemma {:induction false} FieldsSlashFree(s: string)
    ensures forall k :: 0 <= k < |Fields(s)| ==> Slash !in Fields(s)[k]
    decreases |s|
  {
    if s != [] {
      FieldsSlashFree(s[1..]);
      var rest := Fields(s[1..]);
      if s[0] != Slash {
        assert Slash !in [s[0]] + rest[0];
      }
    }
  }

  /** The fields separated by slashes again. */
  function Join(fs: seq<string>): string
    requires |fs| >= 1
    decreases |fs|
  {
    if |fs| == 1 then fs[0] else fs[0] + [Slash] + Join(fs[1..])
  }

  /** Splitting at the slashes and joining with slashes gives the string back. */
  lemma {:induction false} JoinFields(s: string)
    ensures Join(Fields(s)) == s
    decreases |s|
  {
    if s != [] {
      JoinFields(s[1..]);
      var rest := Fields(s[1..]);
      if s[0] == Slash {
        assert Fields(s)[1..] == rest;
      } else {
        var fs := Fields(s);
        if |rest| == 1 {
          assert s == [s[0]] + s[1..];
        } else {
          assert fs[1..] == rest[1..];
          assert Join(rest) == rest[0] + [Slash] + Join(rest[1..]);
          assert s == [s[0]] + s[1..];
        }
      }
    }
  }

  /** Prepending a slash-free word to a string extends its first field. */
  lemma {:induction false} FieldsAppend(a: string, b: string)
    requires Slash !in a
    ensures Fields(a + b) == [a + Fields(b)[0]] + Fields(b)[1..]
    decreases |a|
  {
    if a != [] {
      assert (a + b)[1..] == a[1..] + b;
      FieldsAppend(a[1..], b);
      assert [a[0]] + (a[1..] + Fields(b)[0]) == a + Fields(b)[0];
    } else {
      assert a + b == b;
      assert a + Fields(b)[0] == Fields(b)[0];
      assert [Fields(b)[0]] + Fields(b)[1..] == Fields(b);
    }
  }

  /** Joining slash-free fields and splitting again gives the same fields. */
  lemma {:induction false} FieldsJoin(fs: seq<string>)
    requires |fs| >= 1
    requires forall k :: 0 <= k < |fs| ==> Slash !in fs[k]
    ensures Fields(Join(fs)) == fs
    decreases |fs|
  {
    if |fs| == 1 {
      FieldsAppend(fs[0], []);
      assert fs[0] + [] == fs[0];
    } else {
      FieldsJoin(fs[1..]);
      var b := [Slash] + Join(fs[1..]);
      assert Fields(b) == [[]] + fs[1..] by {
        assert b[1..] == Join(fs[1..]);
      }
      assert fs[0] + [Slash] + Join(fs[1..]) == fs[0] + b;
      FieldsAppend(fs[0], b);
      assert fs[0] + [] == fs[0];
    }
  }

  /** The non-empty entries of `fs`, in order. */
  function NonEmpty(fs: seq<string>): seq<string>
    decreases |fs|
  {
    if fs == [] then []
    else (if fs[0] == [] then [] else [fs[0]]) + NonEmpty(fs[1..])
  }

  /** The tokens strtok(…, "/") produces from `s`: its non-empty fields, so that
      consecutive, leading and trailing slashes produce no token. */
  function Tokens(s: string): seq<string> {
    NonEmpty(Fields(s))
  }

  /** Every token is non-empty and free of slashes. */
  lemma TokensShape(s: string)
    ensures forall k :: 0 <= k < |Tokens(s)| ==> Tokens(s)[k] != [] && Slash !in Tokens(s)[k]
  {
    FieldsSlashFree(s);
    NonEmptyKeeps(Fields(s));
  }

  /** Every entry kept is a non-empty entry of the input. */
  lemma {:induction false} NonEmptyKeeps(fs: seq<string>)
    ensures forall k :: 0 <= k < |NonEmpty(fs)| ==> NonEmpty(fs)[k] != [] && NonEmpty(fs)[k] in fs
    decreases |fs|
  {
    if fs != [] {
      NonEmptyKeeps(fs[1..]);
      assert forall t :: t in fs[1..] ==> t in fs;
    }
  }

  /** A leading slash produces no token. */
  lemma TokensSlash(s: string)
    ensures Tokens([Slash] + s) == Tokens(s)
  {
    assert ([Slash] + s)[1..] == s;
    assert NonEmpty([[]] + Fields(s)) == NonEmpty(Fields(s)) by {
      assert ([[]] + Fields(s))[1..] == Fields(s);
    }
  }

  /** A run of slashes before `s` produces no token. */
  lemma {:induction false} TokensSlashes(p: string, s: string)
    requires forall k :: 0 <= k < |p| ==> p[k] == Slash
    ensures Tokens(p + s) == Tokens(s)
    decreases |p|
  {
    if p != [] {
      TokensSlashes(p[1..], s);
      assert p == [Slash] + p[1..];
      AppendAssoc([Slash], p[1..], s);
      TokensSlash(p[1..] + s);
    } else {
      assert p + s == s;
    }
  }

  /** A non-empty slash-free word followed by a slash is one token. */
  lemma TokensWord(a: string, s: string)
    requires a != [] && Slash !in a
    ensures Tokens(a + [Slash] + s) == [a] + Tokens(s)
  {
    assert a + [Slash] + s == a + ([Slash] + s);
    assert Fields([Slash] + s) == [[]] + Fields(s) by {
      assert ([Slash] + s)[1..] == s;
    }
    FieldsAppend(a, [Slash] + s);
    assert a + [] == a;
    var fs := [a] + Fields(s);
    assert Fields(a + [Slash] + s) == fs;
    assert fs[1..] == Fields(s);
    assert NonEmpty(fs) == [a] + NonEmpty(Fields(s));
  }

  /** A non-empty slash-free word on its own is one token. */
  lemma TokensLastWord(a: string)
    requires a != [] && Slash !in a
    ensures Tokens(a) == [a]
  {
    FieldsAppend(a, []);
    assert a + [] == a;
    assert Fields(a) == [a];
    assert [a][1..] == [];
    assert NonEmpty([a]) == [a] + NonEmpty([]);
  }

  /** Joining non-empty slash-free tokens with slashes and tokenizing gives the tokens back. */
  lemma {:induction false} TokensJoin(ts: seq<string>)
    requires |ts| >= 1
    requires forall k :: 0 <= k < |ts| ==> ts[k] != [] && Slash !in ts[k]
    ensures Tokens(Join(ts)) == ts
    decreases |ts|
  {
    if |ts| == 1 {
      TokensLastWord(ts[0]);
    } else {
      TokensJoin(ts[1..]);
      TokensWord(ts[0], Join(ts[1..]));
      assert [ts[0]] + ts[1..] == ts;
    }
  }

  /** strtok's skipping of leading delimiters. */
  function SkipSlashes(s: string): (t: string)
    ensures |t| <= |s|
    decreases |s|
  {
    if s != [] && s[0] == Slash then SkipSlashes(s[1..]) else s
  }

  /** Skipping removes a run of slashes and stops at a non-slash or at the end. */
  lemma {:induction false} SkipSlashesShape(s: string)
    ensures var t := SkipSlashes(s);
      t == s[|s| - |t|..] && (t == [] || t[0] != Slash) &&
      forall k :: 0 <= k < |s| - |t| ==> s[k] == Slash
    decreases |s|
  {
    if s != [] && s[0] == Slash {
      SkipSlashesShape(s[1..]);
    }
  }

  /** strtok's scan for the end of a token: the first delimiter, or the end of the string. */
  function TokenEnd(t: string): (k: nat)
    ensures k <= |t|
    decreases |t|
  {
    if t == [] || t[0] == Slash then 0 else 1 + TokenEnd(t[1..])
  }

  /** The token runs up to the first slash: none inside, one right after unless at the end. */
  lemma {:induction false} TokenEndShape(t: string)
    ensures var k := TokenEnd(t);
      Slash !in t[..k] && (k < |t| ==> t[k] == Slash) && (t != [] && t[0] != Slash ==> k > 0)
    decreases |t|
  {
    if t != [] && t[0] != Slash {
      TokenEndShape(t[1..]);
      var k := TokenEnd(t[1..]);
      assert t[..k + 1] == [t[0]] + t[1..][..k];
    }
  }

  function Strtok(s: string): (res: (Option<string>, string))
    ensures res.0.Some? ==> |res.1| < |s|
  {
    var t := SkipSlashes(s);
    if t == [] then (None, [])
    else
      var k := TokenEnd(t);
      (Some(t[..k]), if k < |t| then t[k + 1..] else [])
  }

  lemma StrtokTokens(s: string)
    ensures Strtok(s).0.None? <==> Tokens(s) == []
    ensures Strtok(s).0.Some? ==> Tokens(s) == [Strtok(s).0.value] + Tokens(Strtok(s).1)
  {
    var t := SkipSlashes(s);
    SkippedSlashes(s);
    SkipSlashesStops(s);
    if t == [] {
      TokensEmpty();
    } else {
      var k := TokenEnd(t);
      var tok, rest := t[..k], if k < |t| then t[k + 1..] else [];
      assert Strtok(s) == (Some(tok), rest);
      FirstToken(t);
    }
  }

  /** Skipping stops at a non-slash or at the end. */
  lemma SkipSlashesStops(s: string)
    ensures SkipSlashes(s) == [] || SkipSlashes(s)[0] != Slash
  {
    SkipSlashesShape(s);
  }

  /** After the leading slashes, the first token runs up to the next slash. */
  lemma FirstToken(t: string)
    requires t != [] && t[0] != Slash
    ensures var k := TokenEnd(t);
      Tokens(t) == [t[..k]] + Tokens(if k < |t| then t[k + 1..] else [])
  {
    var k := TokenEnd(t);
    TokenEndShape(t);
    var w := t[..k];
    if k < |t| {
      assert t == w + [Slash] + t[k + 1..];
      TokensWord(w, t[k + 1..]);
    } else {
      assert w == t;
      TokensLastWord(t);
      TokensEmpty();
    }
  }

  /** Skipping leading slashes loses no token. */
  lemma SkippedSlashes(s: string)
    ensures Tokens(SkipSlashes(s)) == Tokens(s)
  {
    var t := SkipSlashes(s);
    SkipSlashesShape(s);
    var p := s[..|s| - |t|];
    assert s == p + t;
    TokensSlashes(p, t);
  }

  /** The empty string has no token. */
  lemma TokensEmpty()
    ensures Tokens([]) == []
  {
    var none: seq<string> := [[]];
    assert Fields([]) == none;
    assert none[1..] == [];
    assert NonEmpty(none) == [] + NonEmpty([]);
  }

  /** The text a C string still shows after region_parse has run strtok over it in
      place: strtok overwrites the '/' ending each token it returns with NUL, so only
      the leading slashes and the first token remain before the terminator. */
  function AfterStrtok(s: string): (r: string)
    ensures |r| <= |s| && r == s[..|r|]
  {
    var u := SkipSlashes(s);
    s[..|s| - |u| + TokenEnd(u)]
  }

  /** A string cut by strtok keeps only its first token. */
  lemma AfterStrtokTokens(s: string)
    ensures Tokens(AfterStrtok(s)) == if Tokens(s) == [] then [] else [Tokens(s)[0]]
  {
    var u := SkipSlashes(s);
    var k := TokenEnd(u);
    var p := s[..|s| - |u|];
    SkipSlashesShape(s);
    assert AfterStrtok(s) == p + u[..k];
    TokensSlashes(p, u[..k]);
    SkippedSlashes(s);
    if u == [] {
      assert u[..k] == [];
      TokensEmpty();
    } else {
      TokenEndShape(u);
      FirstToken(u);
      TokensLastWord(u[..k]);
    }
  }

  /** The bounds of a region in region_parse's positional order. */
  function Field(r: Region, k: nat): real
    requires k < 4
  {
    match k
    case 0 => r.xmin
    case 1 => r.xmax
    case 2 => r.ymin
    case 3 => r.ymax
  }

  /** What region_parse returns for `s`: token k (k < 4) converted by atof becomes
      bound k; tokens after the fourth are ignored; a bound with no token keeps the
      value `uninit` has. */
  function Parsed(s: string, atof: string -> real, uninit: Region): (r: Region)
    ensures forall k :: 0 <= k < 4 ==>
      Field(r, k) == if k < |Tokens(s)| then atof(Tokens(s)[k]) else Field(uninit, k)
  {
    var ts := Tokens(s);
    Region(if |ts| > 0 then atof(ts[0]) else uninit.xmin,
           if |ts| > 1 then atof(ts[1]) else uninit.xmax,
           if |ts| > 2 then atof(ts[2]) else uninit.ymin,
           if |ts| > 3 then atof(ts[3]) else uninit.ymax)
  }

  /** One strtok call on a scan state whose tokens are the suffix toks[i..]. */
  lemma StrtokStep(rest: string, toks: seq<string>, i: nat)
    requires i <= |toks| && Tokens(rest) == toks[i..]
    ensures Strtok(rest).0 == if i < |toks| then Some(toks[i]) else None
    ensures Tokens(Strtok(rest).1) == toks[if i < |toks| then i + 1 else i..]
  {
    StrtokTokens(rest);
    if i < |toks| {
      assert toks[i..] == [toks[i]] + toks[i + 1..];
    } else {
      TokensEmpty();
    }
  }

  /** region_parse: a counted loop of four steps over the strtok scan state, writing
      bound j when the j-th strtok call found a token. */
  method Parse(regionString: string, atof: string -> real, uninit: Region) returns (rgn: Region)
    ensures rgn == Parsed(regionString, atof, uninit)
  {
    ghost var toks := Tokens(regionString);
    rgn := uninit;
    assert toks[0..] == toks;
    StrtokStep(regionString, toks, 0);
    var st := Strtok(regionString);
    var p, rest := st.0, st.1;
    for j := 0 to 4
      invariant p == if j < |toks| then Some(toks[j]) else None
      invariant Tokens(rest) == toks[if j < |toks| then j + 1 else |toks|..]
      invariant rgn.xmin == if 0 < j && 0 < |toks| then atof(toks[0]) else uninit.xmin
      invariant rgn.xmax == if 1 < j && 1 < |toks| then atof(toks[1]) else uninit.xmax
      invariant rgn.ymin == if 2 < j && 2 < |toks| then atof(toks[2]) else uninit.ymin
      invariant rgn.ymax == if 3 < j && 3 < |toks| then atof(toks[3]) else uninit.ymax
    {
      if p.Some? {
        if j == 0 { rgn := rgn.(xmin := atof(p.value)); }
        if j == 1 { rgn := rgn.(xmax := atof(p.value)); }
        if j == 2 { rgn := rgn.(ymin := atof(p.value)); }
        if j == 3 { rgn := rgn.(ymax := atof(p.value)); }
      }
      StrtokStep(rest, toks, if j < |toks| then j + 1 else |toks|);
      st := Strtok(rest);
      p, rest := st.0, st.1;
    }
    ParsedPositional(regionString, atof, uninit);
  }

  /** Parsed written out bound by bound. */
  lemma ParsedPositional(s: string, atof: string -> real, uninit: Region)
    ensures var ts := Tokens(s);
      Parsed(s, atof, uninit) ==
      Region(if 0 < |ts| then atof(ts[0]) else uninit.xmin,
             if 1 < |ts| then atof(ts[1]) else uninit.xmax,
             if 2 < |ts| then atof(ts[2]) else uninit.ymin,
             if 3 < |ts| then atof(ts[3]) else uninit.ymax)
  {
  }

  /** Four non-empty slash-free tokens joined by slashes parse to the four bounds in order. */
  lemma ParsedFour(a: string, b: string, c: string, d: string, atof: string -> real, uninit: Region)
    requires a != [] && b != [] && c != [] && d != []
    requires Slash !in a && Slash !in b && Slash !in c && Slash !in d
    ensures Parsed(Join([a, b, c, d]), atof, uninit) == Region(atof(a), atof(b), atof(c), atof(d))
  {
    TokensJoin([a, b, c, d]);
  }

  /** Tokens after the fourth are ignored. */
  lemma ParsedIgnoresExtra(s: string, more: string, atof: string -> real, uninit: Region)
    requires |Tokens(s)| >= 4
    ensures Parsed(s + [Slash] + more, atof, uninit) == Parsed(s, atof, uninit)
  {
    TokensConcat(s, more);
  }

  /** A slash between two strings separates their tokens. */
  lemma TokensConcat(s: string, more: string)
    ensures Tokens(s + [Slash] + more) == Tokens(s) + Tokens(more)
  {
    FieldsConcat(s, more);
    NonEmptyPrefix(Fields(s), Fields(more));
  }

  /** Splitting at a slash joins the fields of both sides. */
  lemma {:induction false} FieldsConcat(s: string, more: string)
    ensures Fields(s + [Slash] + more) == Fields(s) + Fields(more)
    decreases |s|
  {
    if s == [] {
      assert s + [Slash] + more == [Slash] + more;
      FieldsSlash(more);
    } else {
      var c, x := s[0], s[1..];
      assert s == [c] + x;
      assert s + [Slash] + more == [c] + (x + [Slash] + more);
      FieldsConcat(x, more);
      FieldsConcatStep(c, x, x + [Slash] + more, Fields(more));
    }
  }

  /** One character more in front of both strings keeps their fields related. */
  lemma FieldsConcatStep(c: char, x: string, y: string, m: seq<string>)
    requires Fields(y) == Fields(x) + m
    ensures Fields([c] + y) == Fields([c] + x) + m
  {
    FieldsCons(c, x);
    FieldsCons(c, y);
    ConsFieldAppend(c, Fields(x), m);
  }

  /** The case split of Fields on a first character commutes with appending fields. */
  lemma ConsFieldAppend(c: char, r: seq<string>, m: seq<string>)
    requires |r| >= 1
    ensures (if c == Slash then [[]] + (r + m) else [[c] + (r + m)[0]] + (r + m)[1..]) ==
            (if c == Slash then [[]] + r else [[c] + r[0]] + r[1..]) + m
  {
    if c != Slash {
      assert (r + m)[0] == r[0];
      ReplaceHead([c] + r[0], r, m);
    } else {
      AppendAssoc([[]], r, m);
    }
  }

  lemma ReplaceHead<T>(h: T, r: seq<T>, m: seq<T>)
    requires |r| >= 1
    ensures [h] + (r + m)[1..] == ([h] + r[1..]) + m
  {
    assert (r + m)[1..] == r[1..] + m;
  }

  lemma AppendAssoc<T>(a: seq<T>, b: seq<T>, c: seq<T>)
    ensures a + (b + c) == (a + b) + c
  {
  }

  /** Fields of a string with a known first character. */
  lemma FieldsCons(c: char, x: string)
    ensures Fields([c] + x) ==
      if c == Slash then [[]] + Fields(x) else [[c] + Fields(x)[0]] + Fields(x)[1..]
  {
    assert ([c] + x)[1..] == x;
  }

  /** A slash starts a new, first empty, field. */
  lemma FieldsSlash(s: string)
    ensures Fields([Slash] + s) == [[]] + Fields(s)
  {
    assert ([Slash] + s)[1..] == s;
  }

  /** The non-empty entries of a prefix are a prefix of the non-empty entries. */
  lemma {:induction false} NonEmptyPrefix(fs: seq<string>, gs: seq<string>)
    ensures NonEmpty(fs + gs) == NonEmpty(fs) + NonEmpty(gs)
    decreases |fs|
  {
    if fs == [] {
      assert fs + gs == gs;
    } else {
      assert (fs + gs)[1..] == fs[1..] + gs;
      NonEmptyPrefix(fs[1..], gs);
    }
  }

  /** Consecutive slashes produce no empty field: "1//2" sets only the first two bounds. */
  lemma ParsedSkipsEmpty(atof: string -> real, uninit: Region)
    ensures Parsed("1//2", atof, uninit) == Region(atof("1"), atof("2"), uninit.ymin, uninit.ymax)
  {
    assert "1//2" == "1" + [Slash] + ([Slash] + "2");
    TokensWord("1", [Slash] + "2");
    TokensSlash("2");
    TokensLastWord("2");
  }

  /** The preset behind the "d" shorthand (REGION_D of main). */
  const RegionD: string := "-180/180/-90/90"

  /** The preset behind the "g" shorthand (REGION_G of main). */
  const RegionG: string := "0/360/-90/90"

  /** The region string main hands to region_parse for an argument of -R: the "d" or
      "g" preset for the exact shorthand, the argument itself for anything else. */
  function Expand(arg: string): string {
    if arg == "d" then RegionD
    else if arg == "g" then RegionG
    else arg
  }

  /** Expand's case table: exactly "d" and "g" are shorthands, any other argument is
      parsed as it stands. */
  lemma ExpandCases(arg: string)
    ensures arg == "d" ==> Expand(arg) == RegionD
    ensures arg == "g" ==> Expand(arg) == RegionG
    ensures arg != "d" && arg != "g" ==> Expand(arg) == arg
  {
  }

  /** "d" parses to the whole world in degrees -180..180, -90..90. */
  lemma ShorthandD(atof: string -> real, uninit: Region)
    requires atof("-180") == -180.0 && atof("180") == 180.0
    requires atof("-90") == -90.0 && atof("90") == 90.0
    ensures Parsed(Expand("d"), atof, uninit) == Region(-180.0, 180.0, -90.0, 90.0)
  {
    assert RegionD == Join(["-180", "180", "-90", "90"]);
    ParsedFour("-180", "180", "-90", "90", atof, uninit);
  }

  /** "g" parses to the whole world in degrees 0..360, -90..90. */
  lemma ShorthandG(atof: string -> real, uninit: Region)
    requires atof("0") == 0.0 && atof("360") == 360.0
    requires atof("-90") == -90.0 && atof("90") == 90.0
    ensures Parsed(Expand("g"), atof, uninit) == Region(0.0, 360.0, -90.0, 90.0)
  {
    assert RegionG == Join(["0", "360", "-90", "90"]);
    ParsedFour("0", "360", "-90", "90", atof, uninit);
  }
}
