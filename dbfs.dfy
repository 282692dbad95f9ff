/**
 The DBFS directory under which wheels are uploaded:
 `dbfs:/FileStore/wheels/<first>/<second>/`. The two generations of the
 path helpers put the project name and the branch name in opposite orders,
 so both are built from this one shape.
 */
module Dbfs {
  import opened Text

  const WheelsRoot: string := "dbfs:/FileStore/wheels/"

  /** `f"dbfs:/FileStore/wheels/{first}/{second}/"`: under `dbfs:/FileStore/wheels/`, and ending in `/`. */
  function WheelsDir(first: string, second: string): (path: string)
    ensures |WheelsRoot| < |path| && path[..|WheelsRoot|] == WheelsRoot
    ensures path[|path| - 1] == '/'
  {
    WheelsRoot + (first + "/" + second + "/")
  }

  /** After `dbfs:/FileStore/wheels/`, a file path splits into the pieces of the two names and of the file name. */
  lemma NamesSegments(first: string, second: string, file: string)
    ensures Split(first + "/" + second + "/" + file, '/') == Split(first, '/') + Split(second, '/') + Split(file, '/')
  {
    assert first + "/" + second + "/" + file == first + ['/'] + (second + ['/'] + file);
    SplitConcat(second, '/', file);
    SplitConcat(first, '/', second + ['/'] + file);
  }

  /** The root spelled out segment by segment. */
  lemma RootSpelling()
    ensures WheelsRoot == "dbfs:" + ['/'] + "FileStore" + ['/'] + "wheels" + ['/']
  {
  }

  /** Whatever follows the root splits after its three segments. */
  lemma RootSegments(rest: string)
    ensures Split(WheelsRoot + rest, '/') == ["dbfs:", "FileStore", "wheels"] + Split(rest, '/')
  {
    RootSpelling();
    assert '/' !in "dbfs:" && '/' !in "FileStore" && '/' !in "wheels";
    ThreeSegments("dbfs:", "FileStore", "wheels", rest);
  }

  /** Three separator-free segments, each followed by `/`, split off in front of the rest. */
  lemma ThreeSegments(x: string, y: string, z: string, rest: string)
    requires '/' !in x && '/' !in y && '/' !in z
    ensures Split(x + ['/'] + y + ['/'] + z + ['/'] + rest, '/') == [x, y, z] + Split(rest, '/')
  {
    var v := y + ['/'] + (z + ['/'] + rest);
    Regroup(x, y, z, rest);
    TwoSegments(y, z, rest);
    SplitAfterPiece(x, '/', v);
    assert [x] + ([y, z] + Split(rest, '/')) == [x, y, z] + Split(rest, '/');
  }

  lemma TwoSegments(y: string, z: string, rest: string)
    requires '/' !in y && '/' !in z
    ensures Split(y + ['/'] + (z + ['/'] + rest), '/') == [y, z] + Split(rest, '/')
  {
    SplitAfterPiece(z, '/', rest);
    SplitAfterPiece(y, '/', z + ['/'] + rest);
    assert [y] + ([z] + Split(rest, '/')) == [y, z] + Split(rest, '/');
  }

  lemma Regroup(x: string, y: string, z: string, rest: string)
    ensures x + ['/'] + y + ['/'] + z + ['/'] + rest == x + ['/'] + (y + ['/'] + (z + ['/'] + rest))
  {
    calc {
      x + ['/'] + y + ['/'] + z + ['/'] + rest;
      x + ['/'] + y + ['/'] + (z + ['/'] + rest);
      x + ['/'] + (y + ['/'] + (z + ['/'] + rest));
    }
  }

  /**
   A file path in the directory splits on `/` into the root segments, the
   pieces of the two names and the pieces of the file name. A name holding
   `/` (a branch such as `feature/x`) contributes one piece per segment.
   */
  lemma WheelsFileSegments(first: string, second: string, file: string)
    ensures Split(WheelsDir(first, second) + file, '/')
         == ["dbfs:", "FileStore", "wheels"] + Split(first, '/') + Split(second, '/') + Split(file, '/')
  {
    var names := first + "/" + second + "/" + file;
    assert WheelsDir(first, second) + file == WheelsRoot + names;
    RootSegments(names);
    NamesSegments(first, second, file);
  }

  /** The directory itself splits into the root segments, the pieces of the two names and a trailing empty piece. */
  lemma WheelsDirSegments(first: string, second: string)
    ensures Split(WheelsDir(first, second), '/')
         == ["dbfs:", "FileStore", "wheels"] + Split(first, '/') + Split(second, '/') + [""]
  {
    WheelsFileSegments(first, second, "");
    assert WheelsDir(first, second) + "" == WheelsDir(first, second);
  }

  /** For names free of `/`, the directory determines both names. */
  lemma WheelsDirInjective(first: string, second: string, first': string, second': string)
    requires '/' !in first && '/' !in second && '/' !in first' && '/' !in second'
    requires WheelsDir(first, second) == WheelsDir(first', second')
    ensures first == first' && second == second'
  {
    WheelsDirSegments(first, second);
    WheelsDirSegments(first', second');
    SplitNoSeparator(first, '/');
    SplitNoSeparator(second, '/');
    SplitNoSeparator(first', '/');
    SplitNoSeparator(second', '/');
    var root := ["dbfs:", "FileStore", "wheels"];
    assert (root + [first] + [second] + [""])[3] == first;
    assert (root + [first] + [second] + [""])[4] == second;
    assert (root + [first'] + [second'] + [""])[3] == first';
    assert (root + [first'] + [second'] + [""])[4] == second';
  }

  /**
   A name holding `/` makes the directory ambiguous: moving a segment from
   the end of the first name to the front of the second gives the same
   path, so the directory does not determine branch-like names.
   */
  lemma WheelsDirAmbiguous(x: string, y: string, z: string)
    ensures WheelsDir(x + "/" + y, z) == WheelsDir(x, y + "/" + z)
  {
    assert x + "/" + y + "/" + z + "/" == x + "/" + (y + "/" + z) + "/";
  }
}
