/**
 Values shared by the whole model: optional values, the exceptions the
 Python code raises (or lets propagate), and the "dict built from pairs,
 last write wins" rule that both `dict_from_keyvalue_list` and `list_jobs`
 rely on.
 */
module Common {

  datatype Option<T> = None | Some(value: T)

  /** The exceptions the modelled code raises or lets escape. */
  datatype Error =
    | ValueError(message: string)     // `raise ValueError(...)` in the code itself
    | UnpackError(parts: nat)         // ValueError from `k, v = ...` on a split with `parts` pieces
    | IndexError                      // `[0]` on an empty list
    | AttributeError                  // `.keys()` on a configuration value that is not a mapping
    | TemplateError(message: string)  // raised by the template renderer
    | ParseError(message: string)     // raised by the JSON or YAML parser
    | CommandFailed(message: string)  // a shelled-out command exited with a non-zero status

  datatype Result<T> = Ok(value: T) | Err(error: Error)

  /** The keys of a sequence of pairs. */
  ghost function KeysOf<K, V>(pairs: seq<(K, V)>): set<K>
  {
    set i | 0 <= i < |pairs| :: pairs[i].0
  }

  /**
   The dictionary that `{k: v for k, v in pairs}` builds: pairs are inserted
   from left to right, so a later pair overwrites an earlier one with the
   same key.
   */
  function PairsToMap<K, V>(pairs: seq<(K, V)>): (m: map<K, V>)
    ensures m.Keys == KeysOf(pairs)
  {
    if |pairs| == 0 then map[]
    else
      var last := pairs[|pairs| - 1];
      var m := PairsToMap(pairs[..|pairs| - 1]);
      assert KeysOf(pairs) == KeysOf(pairs[..|pairs| - 1]) + {last.0} by {
        forall k | k in KeysOf(pairs) ensures k in KeysOf(pairs[..|pairs| - 1]) + {last.0} {
          var i :| 0 <= i < |pairs| && pairs[i].0 == k;
          if i < |pairs| - 1 {
            assert pairs[..|pairs| - 1][i] == pairs[i];
          }
        }
      }
      m[last.0 := last.1]
  }

  /** A key is mapped to the value of the LAST pair that carries it. */
  lemma {:induction false} PairsToMapLastWins<K, V>(pairs: seq<(K, V)>, i: nat)
    requires i < |pairs|
    requires forall j :: i < j < |pairs| ==> pairs[j].0 != pairs[i].0
    ensures pairs[i].0 in PairsToMap(pairs)
    ensures PairsToMap(pairs)[pairs[i].0] == pairs[i].1
  {
    if i < |pairs| - 1 {
      var init := pairs[..|pairs| - 1];
      forall j | i < j < |init| ensures init[j].0 != init[i].0 {
        assert init[j] == pairs[j];
      }
      PairsToMapLastWins(init, i);
    }
  }
}
