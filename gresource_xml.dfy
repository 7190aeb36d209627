/**
 * The GResource XML manifest (gvdb/src/gresource/xml.rs): its records, and the two
 * attribute parsers the manifest's deserializer calls, for `compressed` and for
 * `preprocess`.
 *
 * Attribute values are text (`string`). File names, aliases, prefixes and the manifest's
 * directory become gvdb keys, so they are kept as their UTF-8 bytes. Reading the XML itself
 * (quick_xml and serde) is not part of this model.
 */
module GResourceXml {
  import opened Wrappers
  import opened GvdbUtil

  /** Which preprocessing a file asks for. */
  datatype PreprocessOptions = PreprocessOptions(xmlStripblanks: bool, toPixdata: bool, jsonStripblanks: bool)

  /** A `<file>` element: its file name, optional alias and attributes. */
  datatype File = File(filename: bytes, alias: Option<bytes>, compressed: bool, preprocess: PreprocessOptions)

  /** A `<gresource>` section: its files and the prefix of their keys. */
  datatype GResource = GResource(files: seq<File>, prefix: bytes)

  /** The document, with the directory the file names are relative to. */
  datatype XmlManifest = XmlManifest(gresources: seq<GResource>, dir: bytes)

  /** The deserializer's custom errors, with the offending text. */
  datatype XmlError = NotABool(got: string) | UnknownPreprocess(got: string)

  /** `PreprocessOptions::default()`: every flag off. */
  function Default(): PreprocessOptions
  {
    PreprocessOptions(false, false, false)
  }

  /** `PreprocessOptions::empty` */
  function Empty(): PreprocessOptions
  {
    PreprocessOptions(false, false, false)
  }

  /** `PreprocessOptions::xml_stripblanks` */
  function XmlStripblanks(): PreprocessOptions
  {
    PreprocessOptions(true, false, false)
  }

  /** `PreprocessOptions::json_stripblanks` */
  function JsonStripblanks(): PreprocessOptions
  {
    PreprocessOptions(false, false, true)
  }

  /**
   * The three presets: `empty` sets no flag, `xml_stripblanks` only the XML flag and
   * `json_stripblanks` only the JSON flag; none asks for pixdata conversion.
   */
  lemma Presets()
    ensures var e := Empty(); !e.xmlStripblanks && !e.jsonStripblanks && !e.toPixdata && e == Default()
    ensures var x := XmlStripblanks(); x.xmlStripblanks && !x.jsonStripblanks && !x.toPixdata
    ensures var j := JsonStripblanks(); !j.xmlStripblanks && j.jsonStripblanks && !j.toPixdata
  {
  }

  const TRUE_WORDS: set<string> := {"true", "t", "yes", "y", "1"}
  const FALSE_WORDS: set<string> := {"false", "f", "no", "n", "0"}

  /** `parse_bool_value`: the spellings of true and false the manifest accepts. */
  function ParseBoolValue(s: string): (r: Result<bool, XmlError>)
    ensures r == Ok(true) <==> s in TRUE_WORDS
    ensures r == Ok(false) <==> s in FALSE_WORDS
    ensures r.Err? <==> s !in TRUE_WORDS && s !in FALSE_WORDS
    ensures r.Err? ==> r.error == NotABool(s)
  {
    if s == "true" || s == "t" || s == "yes" || s == "y" || s == "1" then Ok(true)
    else if s == "false" || s == "f" || s == "no" || s == "n" || s == "0" then Ok(false)
    else Err(NotABool(s))
  }

  /** The comparison is case-sensitive: capitalised spellings are refused. */
  lemma ParseBoolCaseSensitive()
    ensures ParseBoolValue("True").Err? && ParseBoolValue("YES").Err? && ParseBoolValue("F").Err?
    ensures ParseBoolValue("").Err?
  {
  }

  /** The first position of `c` in `s`, or |s| when it does not occur. */
  function Find(s: string, c: char): (r: nat)
    ensures r <= |s| && (r < |s| ==> s[r] == c) && forall i :: 0 <= i < r ==> s[i] != c
  {
    if s == [] then 0 else if s[0] == c then 0 else 1 + Find(s[1..], c)
  }

  /**
   * `str::split`: the pieces between occurrences of the separator. There is always at least
   * one piece; the empty string and a trailing separator give an empty piece.
   */
  function Split(s: string, sep: char): (r: seq<string>)
    ensures |r| >= 1
    decreases |s|
  {
    var i := Find(s, sep);
    if i == |s| then [s] else [s[..i]] + Split(s[i + 1..], sep)
  }

  /** The pieces joined back with the separator between them. */
  function Join(pieces: seq<string>, sep: char): string
    requires |pieces| >= 1
  {
    if |pieces| == 1 then pieces[0] else pieces[0] + [sep] + Join(pieces[1..], sep)
  }

  /** Splitting loses nothing: the pieces hold no separator and join back to the string. */
  lemma {:induction false} SplitJoin(s: string, sep: char)
    ensures Join(Split(s, sep), sep) == s
    ensures forall p :: p in Split(s, sep) ==> sep !in p
    decreases |s|
  {
    var i := Find(s, sep);
    if i < |s| {
      SplitJoin(s[i + 1..], sep);
      assert s == s[..i] + [sep] + s[i + 1..];
    }
  }

  /** The preprocess tokens `parse_preprocess_options` knows. */
  const KNOWN: set<string> := {"json-stripblanks", "xml-stripblanks", "to-pixdata"}

  /** One token of the `preprocess` attribute: it turns on its flag; an unknown one is an error. */
  function ApplyToken(o: PreprocessOptions, token: string): (r: Result<PreprocessOptions, XmlError>)
  {
    if token == "json-stripblanks" then Ok(o.(jsonStripblanks := true))
    else if token == "xml-stripblanks" then Ok(o.(xmlStripblanks := true))
    else if token == "to-pixdata" then Ok(o.(toPixdata := true))
    else Err(UnknownPreprocess(token))
  }

  /** The tokens applied in order, stopping at the first unknown one. */
  function ApplyTokens(o: PreprocessOptions, tokens: seq<string>): (r: Result<PreprocessOptions, XmlError>)
    decreases |tokens|
  {
    if tokens == [] then Ok(o)
    else
      var o' :- ApplyToken(o, tokens[0]);
      ApplyTokens(o', tokens[1..])
  }

  /** What `parse_preprocess_options` returns for an attribute value. */
  function PreprocessOptionsOf(s: string): Result<PreprocessOptions, XmlError>
  {
    ApplyTokens(Default(), Split(s, ','))
  }

  /**
   * `parse_preprocess_options`: from all flags off, each comma-separated token turns its
   * flag on; the first unknown token is the error.
   */
  method ParsePreprocessOptions(s: string) returns (r: Result<PreprocessOptions, XmlError>)
    ensures r == PreprocessOptionsOf(s)
  {
    var items := Split(s, ',');
    var opts := Default();
    var i := 0;
    while i < |items|
      invariant i <= |items|
      invariant ApplyTokens(opts, items[i..]) == PreprocessOptionsOf(s)
    {
      var item := items[i];
      assert items[i..][0] == item && items[i..][1..] == items[i + 1..];
      if item == "json-stripblanks" {
        opts := opts.(jsonStripblanks := true);
      } else if item == "xml-stripblanks" {
        opts := opts.(xmlStripblanks := true);
      } else if item == "to-pixdata" {
        opts := opts.(toPixdata := true);
      } else {
        return Err(UnknownPreprocess(item));
      }
      i := i + 1;
    }
    r := Ok(opts);
  }

  /**
   * Applying tokens succeeds exactly when every token is known; then each flag is on
   * exactly when it was on before or its token occurs. Otherwise the error names the first
   * unknown token.
   */
  lemma {:induction false} ApplyTokensSpec(o: PreprocessOptions, tokens: seq<string>)
    ensures ApplyTokens(o, tokens).Ok? <==> forall t :: t in tokens ==> t in KNOWN
    ensures ApplyTokens(o, tokens).Ok? ==>
      var r := ApplyTokens(o, tokens).value;
      (r.jsonStripblanks <==> o.jsonStripblanks || "json-stripblanks" in tokens)
      && (r.xmlStripblanks <==> o.xmlStripblanks || "xml-stripblanks" in tokens)
      && (r.toPixdata <==> o.toPixdata || "to-pixdata" in tokens)
    ensures ApplyTokens(o, tokens).Err? ==>
      exists i :: 0 <= i < |tokens| && tokens[i] !in KNOWN
        && ApplyTokens(o, tokens).error == UnknownPreprocess(tokens[i])
        && forall j :: 0 <= j < i ==> tokens[j] in KNOWN
    decreases |tokens|
  {
    if tokens != [] {
      var t := tokens[0];
      assert forall x :: x in tokens <==> x == t || x in tokens[1..];
      if t in KNOWN {
        ApplyTokensSpec(ApplyToken(o, t).value, tokens[1..]);
        if ApplyTokens(o, tokens).Err? {
          var i :| 0 <= i < |tokens[1..]| && tokens[1..][i] !in KNOWN
            && ApplyTokens(ApplyToken(o, t).value, tokens[1..]).error == UnknownPreprocess(tokens[1..][i])
            && forall j :: 0 <= j < i ==> tokens[1..][j] in KNOWN;
          assert tokens[i + 1] !in KNOWN;
          assert forall j :: 0 <= j < i + 1 ==> tokens[j] in KNOWN by {
            forall j | 0 <= j < i + 1 ensures tokens[j] in KNOWN {
              if j > 0 { assert tokens[j] == tokens[1..][j - 1]; }
            }
          }
        }
      } else {
        assert tokens[0] !in KNOWN;
      }
    }
  }

  /**
   * The value of a `preprocess` attribute is accepted exactly when every comma-separated
   * token is known, and then the flags set are exactly those named.
   */
  lemma PreprocessOptionsSpec(s: string)
    ensures var tokens := Split(s, ',');
      (PreprocessOptionsOf(s).Ok? <==> forall t :: t in tokens ==> t in KNOWN)
      && (PreprocessOptionsOf(s).Ok? ==>
            var o := PreprocessOptionsOf(s).value;
            (o.jsonStripblanks <==> "json-stripblanks" in tokens)
            && (o.xmlStripblanks <==> "xml-stripblanks" in tokens)
            && (o.toPixdata <==> "to-pixdata" in tokens))
  {
    ApplyTokensSpec(Default(), Split(s, ','));
  }

  /** The empty value and a trailing comma give an empty token, which is refused. */
  lemma EmptyTokenRefused(s: string)
    ensures PreprocessOptionsOf("") == Err(UnknownPreprocess(""))
    ensures PreprocessOptionsOf(s + ",").Err?
  {
    assert Split("", ',') == [""];
    TrailingEmptyPiece(s, ',');
    ApplyTokensSpec(Default(), Split(s + ",", ','));
  }

  /** A string ending in the separator splits into pieces ending with an empty one. */
  lemma {:induction false} TrailingEmptyPiece(s: string, sep: char)
    ensures "" in Split(s + [sep], sep)
    decreases |s|
  {
    var t := s + [sep];
    assert t[|s|] == sep;
    var i := Find(t, sep);
    if i == |s| {
      assert t[i + 1..] == [];
      assert Split(t, sep) == [s] + Split([], sep);
    } else {
      assert t[i + 1..] == s[i + 1..] + [sep];
      TrailingEmptyPiece(s[i + 1..], sep);
    }
  }

  /**
   * The order of the tokens and their repetition do not matter: token lists with the same
   * tokens are accepted or refused alike, and accepted ones give the same options.
   */
  lemma TokenOrderIrrelevant(o: PreprocessOptions, t1: seq<string>, t2: seq<string>)
    requires forall x :: x in t1 <==> x in t2
    ensures ApplyTokens(o, t1).Ok? == ApplyTokens(o, t2).Ok?
    ensures ApplyTokens(o, t1).Ok? ==> ApplyTokens(o, t1) == ApplyTokens(o, t2)
  {
    ApplyTokensSpec(o, t1);
    ApplyTokensSpec(o, t2);
  }

  /** The manifest's example attribute: JSON stripping and pixdata, no XML stripping. */
  lemma JsonAndPixdata()
    ensures PreprocessOptionsOf("json-stripblanks,to-pixdata") == Ok(PreprocessOptions(false, true, true))
  {
    ExampleTokens();
    ApplyTokensSpec(Default(), ["json-stripblanks", "to-pixdata"]);
  }

  lemma ExampleTokens()
    ensures Split("json-stripblanks,to-pixdata", ',') == ["json-stripblanks", "to-pixdata"]
  {
    var a, b := "json-stripblanks", "to-pixdata";
    assert "json-stripblanks,to-pixdata" == a + [','] + b;
    SplitTwo(a, b, ',');
  }

  /** Two pieces without the separator, joined by it, split back into those two pieces. */
  lemma SplitTwo(a: string, b: string, sep: char)
    requires sep !in a && sep !in b
    ensures Split(a + [sep] + b, sep) == [a, b]
  {
    var s := a + [sep] + b;
    assert Find(s, sep) == |a| by {
      assert s[|a|] == sep;
      assert forall i :: 0 <= i < |a| ==> s[i] == a[i];
    }
    assert s[..|a|] == a && s[|a| + 1..] == b;
    assert Find(b, sep) == |b|;
  }
}
