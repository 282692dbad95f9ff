/**
 The string and mapping helpers of `utils/misc.py`: whitespace tidying,
 `key=value` lists to dictionaries, template merging and config loading.
 Reading files, the Jinja2 renderer and the JSON and YAML parsers are
 outside the model: file contents arrive as strings and the three
 libraries as function parameters.
 */
module Misc {
  import opened Common
  import opened Text

  // ---------------------------------------------------------------------
  // tidy: `re.sub(r"\s{2,}", "", text)`
  // ---------------------------------------------------------------------

  /** The length of the whitespace run that starts `s`. */
  function SpaceRun(s: string): (n: nat)
    ensures n <= |s|
    ensures forall k :: 0 <= k < n ==> IsSpace(s[k])
    ensures n < |s| ==> !IsSpace(s[n])
  {
    if |s| == 0 || !IsSpace(s[0]) then 0 else 1 + SpaceRun(s[1..])
  }

  /**
   The substitution as the regex engine performs it, scanning from the left:
   where two whitespace characters start, the greedy `\s{2,}` swallows the
   whole run; anywhere else one character is copied.
   */
  function Tidy(text: string): (r: string)
    ensures |r| <= |text|
    decreases |text|
  {
    if |text| == 0 then ""
    else if |text| >= 2 && IsSpace(text[0]) && IsSpace(text[1]) then Tidy(text[SpaceRun(text)..])
    else [text[0]] + Tidy(text[1..])
  }

  /**
   Whether `s[i]` survives: it is not whitespace, or it is a whitespace
   character whose neighbours (where they exist) are not.
   */
  predicate Kept(s: string, i: nat)
    requires i < |s|
  {
    !IsSpace(s[i]) || ((i == 0 || !IsSpace(s[i - 1])) && (i + 1 == |s| || !IsSpace(s[i + 1])))
  }

  /** The characters of `s` from index `i` on that survive, in order. */
  function KeptFrom(s: string, i: nat): string
    requires i <= |s|
    decreases |s| - i
  {
    if i == |s| then "" else (if Kept(s, i) then [s[i]] else "") + KeptFrom(s, i + 1)
  }

  /** No two adjacent characters are both whitespace. */
  predicate NoDoubleSpace(s: string)
  {
    forall i :: 0 <= i < |s| - 1 ==> !(IsSpace(s[i]) && IsSpace(s[i + 1]))
  }

  lemma {:induction false} SkipRemoved(s: string, j: nat, e: nat)
    requires j <= e <= |s|
    requires forall k :: j <= k < e ==> !Kept(s, k)
    ensures KeptFrom(s, j) == KeptFrom(s, e)
    decreases e - j
  {
    if j < e {
      SkipRemoved(s, j + 1, e);
    }
  }

  lemma {:induction false} TidySuffix(s: string, i: nat)
    requires i <= |s|
    requires i == 0 || i == |s| || !(IsSpace(s[i - 1]) && IsSpace(s[i]))
    ensures Tidy(s[i..]) == KeptFrom(s, i)
    decreases |s| - i
  {
    if i < |s| {
      if i + 1 < |s| && IsSpace(s[i]) && IsSpace(s[i + 1]) {
        var e := RunSkipped(s, i);
        TidySuffix(s, e);
      } else {
        SingleKept(s, i);
        TidySuffix(s, i + 1);
      }
    }
  }

  /** Where a run of two or more whitespace characters starts, the substitution skips to its end. */
  lemma RunSkipped(s: string, i: nat) returns (e: nat)
    requires i + 1 < |s| && IsSpace(s[i]) && IsSpace(s[i + 1])
    requires i == 0 || !(IsSpace(s[i - 1]) && IsSpace(s[i]))
    ensures i < e <= |s|
    ensures Tidy(s[i..]) == Tidy(s[e..])
    ensures KeptFrom(s, i) == KeptFrom(s, e)
    ensures e == |s| || !(IsSpace(s[e - 1]) && IsSpace(s[e]))
  {
    var t := s[i..];
    assert t[0] == s[i] && t[1] == s[i + 1];
    var n := SpaceRun(t);
    assert n >= 2;
    e := i + n;
    assert t[n..] == s[e..];
    forall k | i <= k < e ensures !Kept(s, k) {
      assert s[k] == t[k - i];
      if k == i {
        assert s[k + 1] == t[1];
      } else {
        assert s[k - 1] == t[k - 1 - i];
      }
    }
    SkipRemoved(s, i, e);
    if e < |s| {
      assert s[e] == t[n];
    }
  }

  /** Anywhere else one character is copied, and it is one that survives. */
  lemma SingleKept(s: string, i: nat)
    requires i < |s| && !(i + 1 < |s| && IsSpace(s[i]) && IsSpace(s[i + 1]))
    requires i == 0 || !(IsSpace(s[i - 1]) && IsSpace(s[i]))
    ensures Tidy(s[i..]) == [s[i]] + Tidy(s[i + 1..])
    ensures KeptFrom(s, i) == [s[i]] + KeptFrom(s, i + 1)
  {
    var t := s[i..];
    assert t[1..] == s[i + 1..];
    if i + 1 < |s| {
      assert t[1] == s[i + 1];
    }
    assert Kept(s, i);
  }

  /**
   `tidy` deletes exactly the maximal whitespace runs of length two or
   more: it keeps every non-whitespace character and every lone whitespace
   character, in their original order, and nothing else.
   */
  lemma TidyKeepsExactly(s: string)
    ensures Tidy(s) == KeptFrom(s, 0)
  {
    TidySuffix(s, 0);
    assert s[0..] == s;
  }

  /** After `tidy` no two adjacent characters are both whitespace. */
  lemma {:induction false} TidyNoDoubleSpace(s: string)
    ensures NoDoubleSpace(Tidy(s))
    decreases |s|
  {
    if |s| == 0 {
    } else if |s| >= 2 && IsSpace(s[0]) && IsSpace(s[1]) {
      TidyNoDoubleSpace(s[SpaceRun(s)..]);
    } else {
      var rest := Tidy(s[1..]);
      TidyNoDoubleSpace(s[1..]);
      if IsSpace(s[0]) && |s| >= 2 {
        assert s[1..][0] == s[1];
        assert rest == [s[1]] + Tidy(s[1..][1..]);
      }
      assert Tidy(s) == [s[0]] + rest;
    }
  }

  /** Text without adjacent whitespace is left as it is. */
  lemma {:induction false} TidyLeavesSingleSpacing(s: string)
    requires NoDoubleSpace(s)
    ensures Tidy(s) == s
    decreases |s|
  {
    if |s| > 0 {
      TidyLeavesSingleSpacing(s[1..]);
      assert s == [s[0]] + s[1..];
    }
  }

  /** Tidying twice is tidying once. */
  lemma TidyIdempotent(s: string)
    ensures Tidy(Tidy(s)) == Tidy(s)
  {
    TidyNoDoubleSpace(s);
    TidyLeavesSingleSpacing(Tidy(s));
  }

  /** Single-spaced text that ends in a non-whitespace character passes through untouched, whatever follows. */
  lemma {:induction false} TidyKeepsPrefix(a: string, b: string)
    requires NoDoubleSpace(a)
    requires |a| > 0 ==> !IsSpace(a[|a| - 1])
    ensures Tidy(a + b) == a + Tidy(b)
    decreases |a|
  {
    if |a| > 0 {
      var s := a + b;
      FirstPairOfPrefix(a, b);
      TidyStep(s);
      assert s[1..] == a[1..] + b;
      SingleSpacedTail(a);
      TidyKeepsPrefix(a[1..], b);
      assert a == [a[0]] + a[1..];
    } else {
      assert a + b == b;
    }
  }

  /** Where the text does not open with two whitespace characters, its first character is kept. */
  lemma TidyStep(s: string)
    requires |s| > 0 && !(|s| >= 2 && IsSpace(s[0]) && IsSpace(s[1]))
    ensures Tidy(s) == [s[0]] + Tidy(s[1..])
  {
  }

  /** A single-spaced prefix ending in non-whitespace does not open with two whitespace characters. */
  lemma FirstPairOfPrefix(a: string, b: string)
    requires |a| > 0 && NoDoubleSpace(a) && !IsSpace(a[|a| - 1])
    ensures (a + b)[0] == a[0]
    ensures !(|a + b| >= 2 && IsSpace((a + b)[0]) && IsSpace((a + b)[1]))
  {
    if |a| >= 2 {
      assert (a + b)[1] == a[1];
    }
  }

  /** Dropping the first character keeps text single-spaced and its last character. */
  lemma SingleSpacedTail(a: string)
    requires |a| > 0 && NoDoubleSpace(a) && !IsSpace(a[|a| - 1])
    ensures NoDoubleSpace(a[1..])
    ensures |a[1..]| > 0 ==> !IsSpace(a[1..][|a[1..]| - 1])
  {
    var t := a[1..];
    assert forall i :: 0 <= i < |t| ==> t[i] == a[i + 1];
  }

  /** A whitespace run of two or more characters disappears entirely. */
  lemma TidyDropsRun(t: string)
    requires |t| >= 2 && forall k :: 0 <= k < |t| ==> IsSpace(t[k])
    ensures Tidy(t) == ""
  {
    assert SpaceRun(t) == |t|;
  }

  /**
   Indented text, as a triple-quoted string spread over several lines gives
   it: the leading and trailing whitespace runs of two or more characters
   are deleted and the single-spaced body in between is returned as it is.
   */
  lemma TidyStripsIndentation(lead: string, body: string, trail: string)
    requires |lead| >= 2 && forall k :: 0 <= k < |lead| ==> IsSpace(lead[k])
    requires |trail| >= 2 && forall k :: 0 <= k < |trail| ==> IsSpace(trail[k])
    requires |body| > 0 && !IsSpace(body[0]) && !IsSpace(body[|body| - 1])
    requires NoDoubleSpace(body)
    ensures Tidy(lead + body + trail) == body
  {
    TidyDropsLeadingRun(lead, body, trail);
    TidyDropsTrailingRun(body, trail);
  }

  /** Single-spaced text followed by a whitespace run of two or more characters loses the run. */
  lemma TidyDropsTrailingRun(body: string, trail: string)
    requires |trail| >= 2 && forall k :: 0 <= k < |trail| ==> IsSpace(trail[k])
    requires |body| > 0 && !IsSpace(body[|body| - 1])
    requires NoDoubleSpace(body)
    ensures Tidy(body + trail) == body
  {
    TidyKeepsPrefix(body, trail);
    TidyDropsRun(trail);
    assert body + "" == body;
  }

  /** A leading whitespace run of two or more characters disappears. */
  lemma TidyDropsLeadingRun(lead: string, body: string, trail: string)
    requires |lead| >= 2 && forall k :: 0 <= k < |lead| ==> IsSpace(lead[k])
    requires |body| > 0 && !IsSpace(body[0])
    ensures Tidy(lead + body + trail) == Tidy(body + trail)
  {
    var rest := body + trail;
    var s := lead + rest;
    assert lead + body + trail == s;
    assert s[|lead|] == rest[0] == body[0];
    assert SpaceRun(s) == |lead| by {
      assert s[SpaceRun(s)..] == s[SpaceRun(s)..];
    }
    assert s[0] == lead[0] && s[1] == lead[1];
    assert s[|lead|..] == rest;
  }

  // ---------------------------------------------------------------------
  // dict_from_keyvalue_list
  // ---------------------------------------------------------------------

  /** An item that `k, v = x.split("=")` accepts: exactly one `=`. */
  predicate IsKeyValue(item: string)
  {
    |Split(item, '=')| == 2
  }

  /**
   `[x.split("=") for x in args]` followed by the `k, v` unpacking, item by
   item from the left: the first item that does not split into exactly two
   pieces raises.
   */
  function ParseItems(items: seq<string>): (r: Result<seq<(string, string)>>)
    ensures r.Ok? <==> forall i :: 0 <= i < |items| ==> IsKeyValue(items[i])
    ensures r.Ok? ==> |r.value| == |items|
    ensures r.Ok? ==> forall i :: 0 <= i < |items| ==> Split(items[i], '=') == [r.value[i].0, r.value[i].1]
    ensures r.Err? ==> exists i :: 0 <= i < |items| && !IsKeyValue(items[i])
                        && (forall j :: 0 <= j < i ==> IsKeyValue(items[j]))
                        && r.error == UnpackError(|Split(items[i], '=')|)
  {
    if |items| == 0 then Ok([])
    else
      var parts := Split(items[0], '=');
      if |parts| != 2 then Err(UnpackError(|parts|))
      else
        match ParseItems(items[1..])
        case Ok(rest) => Ok([(parts[0], parts[1])] + rest)
        case Err(e) => Err(e)
  }

  /**
   `{k: v for k, v in [x.split("=") for x in args]} if args else None`:
   no list or an empty one gives no dictionary.
   */
  function DictFromKeyValueList(args: Option<seq<string>>): (r: Result<Option<map<string, string>>>)
    ensures r == Ok(None) <==> args.None? || |args.value| == 0
    ensures r.Err? <==> args.Some? && exists i :: 0 <= i < |args.value| && !IsKeyValue(args.value[i])
    ensures r.Ok? && r.value.Some? ==>
      r.value.value.Keys == set i | 0 <= i < |args.value| :: Split(args.value[i], '=')[0]
  {
    if args.None? || |args.value| == 0 then Ok(None)
    else
      match ParseItems(args.value)
      case Err(e) => Err(e)
      case Ok(pairs) =>
        var m := PairsToMap(pairs);
        assert m.Keys == set i | 0 <= i < |args.value| :: Split(args.value[i], '=')[0] by {
          forall k ensures k in m.Keys <==> k in set i | 0 <= i < |args.value| :: Split(args.value[i], '=')[0] {
            if k in m.Keys {
              var i :| 0 <= i < |pairs| && pairs[i].0 == k;
              assert Split(args.value[i], '=')[0] == k;
            }
            if k in set i | 0 <= i < |args.value| :: Split(args.value[i], '=')[0] {
              var i :| 0 <= i < |args.value| && Split(args.value[i], '=')[0] == k;
              assert pairs[i].0 == k;
            }
          }
        }
        Ok(Some(m))
  }

  /**
   Each key maps to the value of the last item that carries it: an item
   whose key no later item repeats contributes its value.
   */
  lemma DictFromKeyValueListLastWins(items: seq<string>, i: nat)
    requires forall j :: 0 <= j < |items| ==> IsKeyValue(items[j])
    requires i < |items|
    requires forall j :: i < j < |items| ==> Split(items[j], '=')[0] != Split(items[i], '=')[0]
    ensures var r := DictFromKeyValueList(Some(items));
      && r.Ok? && r.value.Some?
      && Split(items[i], '=')[0] in r.value.value
      && r.value.value[Split(items[i], '=')[0]] == Split(items[i], '=')[1]
  {
    var pairs := ParseItems(items).value;
    PairsToMapLastWins(pairs, i);
  }

  /** `key=value` splits into its key and its value. */
  lemma SplitKeyValue(key: string, value: string)
    requires '=' !in key && '=' !in value
    ensures Split(key + "=" + value, '=') == [key, value]
  {
    SplitAfterPiece(key, '=', value);
    SplitNoSeparator(value, '=');
  }

  /** Two items with the same key: the second value wins. */
  lemma DictFromKeyValueListDuplicate(key: string, first: string, second: string)
    requires '=' !in key && '=' !in first && '=' !in second
    ensures DictFromKeyValueList(Some([key + "=" + first, key + "=" + second])) == Ok(Some(map[key := second]))
  {
    var items := [key + "=" + first, key + "=" + second];
    SplitKeyValue(key, first);
    SplitKeyValue(key, second);
    DictFromKeyValueListLastWins(items, 1);
    var r := DictFromKeyValueList(Some(items));
    var m := r.value.value;
    assert m.Keys == {key} by {
      forall k | k in m.Keys ensures k == key {
        var i :| 0 <= i < 2 && Split(items[i], '=')[0] == k;
      }
    }
    assert m == map[key := second];
  }

  // ---------------------------------------------------------------------
  // merge_template and load_config
  // ---------------------------------------------------------------------

  /**
   `merge_template` once the file has been read into `rawContent`: a
   truthy configuration (present and non-empty) renders the text as a
   template against it; otherwise the raw text is returned unchanged.
   */
  function MergeTemplate<V>(rawContent: string, config: Option<map<string, V>>,
                            render: (string, map<string, V>) -> Result<string>): (r: Result<string>)
    ensures config.None? || |config.value| == 0 ==> r == Ok(rawContent)
    ensures config.Some? && |config.value| > 0 ==> r == render(rawContent, config.value)
  {
    if config.Some? && |config.value| > 0 then render(rawContent, config.value) else Ok(rawContent)
  }

  datatype ConfigFormat = Json | Yaml

  /**
   The parser `load_config` picks from the file name: a name ending in
   `json` (case-sensitive, checked first) is JSON; a name whose lower-cased
   form ends in `yml` or `yaml` is YAML; there is no other.
   */
  function FormatOf(filename: string): (format: Option<ConfigFormat>)
    ensures format == Some(Json) <==> EndsWith(filename, "json")
    ensures format == Some(Yaml) ==> EndsWith(AsciiLower(filename), "yml") || EndsWith(AsciiLower(filename), "yaml")
  {
    if EndsWith(filename, "json") then Some(Json)
    else if EndsWith(AsciiLower(filename), "yml") || EndsWith(AsciiLower(filename), "yaml") then Some(Yaml)
    else None
  }

  /**
   `load_config` once the file has been read into `rawContent`: the text
   always goes through `merge_template` with the environment variables
   first, so a rendering error wins over an unsupported file name; then
   the chosen parser runs, or `ValueError` is raised.
   */
  function LoadConfig<D>(filename: string, rawContent: string, environment: Option<map<string, string>>,
                         render: (string, map<string, string>) -> Result<string>,
                         parseJson: string -> Result<D>, parseYaml: string -> Result<D>): (r: Result<D>)
    ensures MergeTemplate(rawContent, environment, render).Err? ==> r == Err(MergeTemplate(rawContent, environment, render).error)
    ensures MergeTemplate(rawContent, environment, render).Ok? ==>
      var content := MergeTemplate(rawContent, environment, render).value;
      r == match FormatOf(filename)
           case Some(Json) => parseJson(content)
           case Some(Yaml) => parseYaml(content)
           case None => Err(ValueError("File type of " + filename + " not supported."))
  {
    match MergeTemplate(rawContent, environment, render)
    case Err(e) => Err(e)
    case Ok(content) =>
      if EndsWith(filename, "json") then parseJson(content)
      else if EndsWith(AsciiLower(filename), "yml") || EndsWith(AsciiLower(filename), "yaml") then parseYaml(content)
      else Err(ValueError("File type of " + filename + " not supported."))
  }

  lemma EndsWithAppended(prefix: string, suffix: string)
    ensures EndsWith(prefix + suffix, suffix)
  {
    assert (prefix + suffix)[|prefix + suffix| - |suffix|..] == suffix;
  }

  lemma LowerAppended(prefix: string, suffix: string)
    ensures AsciiLower(prefix + suffix) == AsciiLower(prefix) + AsciiLower(suffix)
  {
  }

  /** A name ending in `json` is JSON, whatever comes before. */
  lemma FormatJsonSuffix(stem: string)
    ensures FormatOf(stem + "json") == Some(Json)
  {
    EndsWithAppended(stem, "json");
  }

  /** The JSON test is case-sensitive: a name ending in `JSON` is rejected. */
  lemma FormatUpperJsonRejected(stem: string)
    ensures FormatOf(stem + "JSON") == None
  {
    var name := stem + "JSON";
    var last := |name| - 1;
    assert name[last] == 'N';
    assert AsciiLower(name)[last] == 'n';
    assert !EndsWith(name, "json") by {
      assert "json"[3] == 'n';
    }
    assert !EndsWith(AsciiLower(name), "yml") by {
      assert "yml"[2] == 'l';
    }
    assert !EndsWith(AsciiLower(name), "yaml") by {
      assert "yaml"[3] == 'l';
    }
  }

  lemma FormatLoweredYamlSuffix(stem: string, ext: string)
    requires AsciiLower(ext) == "yml" || AsciiLower(ext) == "yaml"
    ensures FormatOf(stem + ext) == Some(Yaml)
  {
    var name := stem + ext;
    assert LowerChar(ext[|ext| - 1]) == 'l' by {
      assert AsciiLower(ext)[|ext| - 1] == 'l';
    }
    assert ext[|ext| - 1] != 'n';
    assert name[|name| - 1] == ext[|ext| - 1];
    assert !EndsWith(name, "json") by {
      assert "json"[3] == 'n';
    }
    LowerAppended(stem, ext);
    EndsWithAppended(AsciiLower(stem), AsciiLower(ext));
  }

  /** The YAML test is not case-sensitive: `yml`, `YML`, `yaml` and `YAML` endings are all YAML. */
  lemma FormatYamlSuffix(stem: string)
    ensures FormatOf(stem + "yml") == Some(Yaml) && FormatOf(stem + "YML") == Some(Yaml)
    ensures FormatOf(stem + "yaml") == Some(Yaml) && FormatOf(stem + "YAML") == Some(Yaml)
  {
    assert AsciiLower("yml") == "yml" by {
      assert forall i :: 0 <= i < 3 ==> AsciiLower("yml")[i] == "yml"[i];
    }
    assert AsciiLower("YML") == "yml" by {
      assert forall i :: 0 <= i < 3 ==> AsciiLower("YML")[i] == "yml"[i];
    }
    assert AsciiLower("yaml") == "yaml" by {
      assert forall i :: 0 <= i < 4 ==> AsciiLower("yaml")[i] == "yaml"[i];
    }
    assert AsciiLower("YAML") == "yaml" by {
      assert forall i :: 0 <= i < 4 ==> AsciiLower("YAML")[i] == "yaml"[i];
    }
    FormatLoweredYamlSuffix(stem, "yml");
    FormatLoweredYamlSuffix(stem, "YML");
    FormatLoweredYamlSuffix(stem, "yaml");
    FormatLoweredYamlSuffix(stem, "YAML");
  }

  /** A name with any other ending is rejected with `ValueError`, once the text has rendered. */
  lemma LoadConfigUnsupported<D>(filename: string, rawContent: string, environment: Option<map<string, string>>,
                                 render: (string, map<string, string>) -> Result<string>,
                                 parseJson: string -> Result<D>, parseYaml: string -> Result<D>)
    requires !EndsWith(filename, "json")
    requires !EndsWith(AsciiLower(filename), "yml") && !EndsWith(AsciiLower(filename), "yaml")
    requires MergeTemplate(rawContent, environment, render).Ok?
    ensures LoadConfig(filename, rawContent, environment, render, parseJson, parseYaml)
         == Err(ValueError("File type of " + filename + " not supported."))
  {
  }
}
