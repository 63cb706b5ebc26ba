/** The ASCII STL reader (pythonista3d/fileformats/stl_file.py).

    An `STLFile` walks the lines of a file one at a time.  The first line
    decides the mode; afterwards a line starting with `facet` opens a new
    facet, a line starting with `vertex` adds a point to the open facet, and
    a line starting with `endloop` files the open facet away.  The pure
    functions `Step` and `Run` say what one line and a whole file do to the
    reader's state; the classes are proved against them. */
module StlFiles {
  import opened Errors
  import opened Points
  import opened PyStrings

  /** The two modes an STL file can be stored in. */
  datatype STLMode = Ascii | Binary

  /** `line.split()[-3:]`: the last three words of a line. */
  function LastWords(line: string): (ws: seq<string>)
    ensures |ws| <= 3
  {
    LastThree(Split(line))
  }

  /** The last three words of a line, read as numbers and made into a point
      in space, as `Point3D(*[float(n) for n in line.split()[-3:]])` does
      (and `Vector3D`, which builds the same three components).  Missing
      components keep their default 0. */
  function ReadTriple(line: string, toNum: string -> Option<real>): (r: Result<Point>)
    ensures r.Ok? <==> forall k :: 0 <= k < |LastWords(line)| ==> toNum(LastWords(line)[k]).Some?
    ensures r.Err? ==> r.error == NotAFloat
    ensures r.Ok? ==> r.value.Valid() && r.value.ndims == 3
    ensures r.Ok? ==> forall k :: 0 <= k < |LastWords(line)| ==>
                        r.value.vals[k] == toNum(LastWords(line)[k]).value
    ensures r.Ok? ==> forall k :: |LastWords(line)| <= k < 3 ==> r.value.vals[k] == 0.0
  {
    var ws := LastWords(line);
    match ParseNumbers(ws, toNum)
    case Err(e) => Err(e)
    case Ok(nums) => Ok(Point3DOf(nums))
  }

  /** What a facet holds: its normal and the vertices added so far. */
  datatype FacetValue = FacetValue(normal: Point, vertices: seq<Point>)

  /** The reader's state: the mode, the number of the line being read, the
      open facet (None when no facet is open) and the facets filed so far
      (an `endloop` with no open facet files a None). */
  datatype ParseState = ParseState(mode: Option<STLMode>, curLine: int,
                                   cur: Option<FacetValue>, facets: seq<Option<FacetValue>>)

  /** What `_process(line)` does to the state, or the error it raises (the
      state is then left as it was: both errors come before any assignment). */
  function Step(st: ParseState, line: string, toNum: string -> Option<real>): (r: Result<ParseState>)
    ensures r.Ok? ==> r.value.curLine == st.curLine && st.facets <= r.value.facets
  {
    if st.curLine == 1 then
      Ok(st.(mode := Some(if "solid" <= line then Ascii else Binary)))
    else if "facet" <= line then
      var normal :- ReadTriple(line, toNum);
      Ok(st.(cur := Some(FacetValue(normal, []))))
    else if "vertex" <= line then
      if st.cur.None? then
        Err(NoneAttribute)
      else
        var v :- ReadTriple(line, toNum);
        Ok(st.(cur := Some(st.cur.value.(vertices := st.cur.value.vertices + [v]))))
    else if "endloop" <= line then
      Ok(st.(cur := None, facets := st.facets + [st.cur]))
    else
      Ok(st)
  }

  /** What one line does: only the first line sets the mode, and it touches
      nothing else; an `endloop` line files the open facet and closes it; a
      line with none of the keywords changes nothing; the errors are exactly
      a bad number on a `facet` or `vertex` line and a `vertex` line with no
      open facet. */
  lemma StepSpec(st: ParseState, line: string, toNum: string -> Option<real>)
    ensures var r := Step(st, line, toNum);
      && (st.curLine == 1 ==> r == Ok(st.(mode := Some(if "solid" <= line then Ascii else Binary))))
      && (st.curLine != 1 && r.Ok? ==> r.value.mode == st.mode)
      && (st.curLine != 1 && "endloop" <= line ==> r == Ok(st.(cur := None, facets := st.facets + [st.cur])))
      && (r.Ok? && !(st.curLine != 1 && "endloop" <= line) ==> r.value.facets == st.facets)
      && (st.curLine != 1 && !("facet" <= line) && !("vertex" <= line) && !("endloop" <= line) ==> r == Ok(st))
      && (r.Err? <==> st.curLine != 1 && (("facet" <= line && ReadTriple(line, toNum).Err?)
                      || ("vertex" <= line && (st.cur.None? || ReadTriple(line, toNum).Err?))))
      && (r.Err? ==> r.error == (if "vertex" <= line && st.cur.None? then NoneAttribute else NotAFloat))
  {
    if st.curLine != 1 && "endloop" <= line {
      assert !("facet" <= line) && !("vertex" <= line) by {
        assert line[0] == 'e';
      }
    }
  }

  /** A `facet` line (after the first line) opens a new facet whose normal
      is read from the line and which has no vertices yet. */
  lemma StepFacetLine(st: ParseState, line: string, toNum: string -> Option<real>)
    requires st.curLine != 1 && "facet" <= line && ReadTriple(line, toNum).Ok?
    ensures Step(st, line, toNum) == Ok(st.(cur := Some(FacetValue(ReadTriple(line, toNum).value, []))))
  {
  }

  /** A `vertex` line (after the first line) adds the point read from the
      line to the open facet, behind the vertices it already has. */
  lemma StepVertexLine(st: ParseState, line: string, toNum: string -> Option<real>)
    requires st.curLine != 1 && "vertex" <= line && st.cur.Some? && ReadTriple(line, toNum).Ok?
    ensures Step(st, line, toNum) ==
            Ok(st.(cur := Some(FacetValue(st.cur.value.normal, st.cur.value.vertices + [ReadTriple(line, toNum).value]))))
  {
    assert !("facet" <= line) by {
      assert line[0] == 'v';
    }
  }

  /** The state a run of `load` reaches, and how it ended. */
  datatype Progress = Progress(state: ParseState, outcome: Outcome)

  /** The loop of `load` over the lines of a file: each line is stripped and
      processed and the line counter moves on; the first error stops the
      run, with the state the reader had before that line. */
  function Run(st: ParseState, lines: seq<string>, toNum: string -> Option<real>): (r: Progress)
    ensures r.outcome.Pass? ==> r.state.curLine == st.curLine + |lines|
    ensures st.facets <= r.state.facets
    decreases |lines|
  {
    if lines == [] then
      Progress(st, Pass)
    else
      match Step(st, Strip(lines[0]), toNum)
      case Err(e) => Progress(st, Fail(e))
      case Ok(next) => Run(next.(curLine := next.curLine + 1), lines[1..], toNum)
  }

  /** The first line of a run: either it fails and the run stops there, or
      the run goes on from the state it leaves, on the next line. */
  lemma RunFirstLine(st: ParseState, lines: seq<string>, toNum: string -> Option<real>)
    requires lines != []
    ensures Step(st, Strip(lines[0]), toNum).Err? ==>
              Run(st, lines, toNum) == Progress(st, Fail(Step(st, Strip(lines[0]), toNum).error))
    ensures Step(st, Strip(lines[0]), toNum).Ok? ==>
              var next := Step(st, Strip(lines[0]), toNum).value;
              Run(st, lines, toNum) == Run(next.(curLine := next.curLine + 1), lines[1..], toNum)
  {
  }

  /** How many of `lines`, numbered from `first` on, are `endloop` lines that
      `_process` acts on (the first line of a file only sets the mode). */
  function CountEndloops(first: int, lines: seq<string>): nat
    decreases |lines|
  {
    if lines == [] then 0
    else (if first != 1 && "endloop" <= Strip(lines[0]) then 1 else 0) + CountEndloops(first + 1, lines[1..])
  }

  /** A run that gets through all its lines files one facet per `endloop` line. */
  lemma {:induction false} RunFilesOnePerEndloop(st: ParseState, lines: seq<string>, toNum: string -> Option<real>)
    ensures Run(st, lines, toNum).outcome.Pass? ==>
              |Run(st, lines, toNum).state.facets| == |st.facets| + CountEndloops(st.curLine, lines)
    decreases |lines|
  {
    if lines != [] {
      StepSpec(st, Strip(lines[0]), toNum);
      match Step(st, Strip(lines[0]), toNum)
      case Err(_) =>
      case Ok(next) =>
        RunFilesOnePerEndloop(next.(curLine := next.curLine + 1), lines[1..], toNum);
    }
  }

  /** Reading a file in two pieces is reading it in one go. */
  lemma {:induction false} RunAppend(st: ParseState, a: seq<string>, b: seq<string>, toNum: string -> Option<real>)
    ensures Run(st, a + b, toNum) ==
              if Run(st, a, toNum).outcome.Pass? then Run(Run(st, a, toNum).state, b, toNum)
              else Run(st, a, toNum)
    decreases |a|
  {
    if a == [] {
      assert a + b == b;
    } else {
      assert (a + b)[0] == a[0] && (a + b)[1..] == a[1..] + b;
      match Step(st, Strip(a[0]), toNum)
      case Err(_) =>
      case Ok(next) =>
        RunAppend(next.(curLine := next.curLine + 1), a[1..], b, toNum);
    }
  }

  lemma SplitAt<T>(xs: seq<T>, i: nat)
    requires i <= |xs|
    ensures xs == xs[..i] + xs[i..] && (i < |xs| ==> xs[i..][0] == xs[i] && xs[i..][1..] == xs[i + 1..])
  {
  }

  /** The facets come out in the order of their `endloop` lines: the line at
      index `i`, when it is an `endloop` line, files the facet that is open
      just before it, right after the ones filed by the lines before it, and
      the lines after it only add facets behind it. */
  lemma EndloopFilesOpenFacet(st: ParseState, lines: seq<string>, i: nat, toNum: string -> Option<real>)
    requires i < |lines| && st.curLine + i != 1 && "endloop" <= Strip(lines[i])
    requires Run(st, lines, toNum).outcome.Pass?
    ensures Run(st, lines[..i], toNum).outcome.Pass?
    ensures Run(st, lines[..i], toNum).state.facets + [Run(st, lines[..i], toNum).state.cur]
            <= Run(st, lines, toNum).state.facets
  {
    var a, b := lines[..i], lines[i..];
    SplitAt(lines, i);
    RunAppend(st, a, b, toNum);
    var s := Run(st, a, toNum).state;
    assert s.curLine == st.curLine + i;
    assert b[0] == lines[i];
    var next := s.(cur := None, facets := s.facets + [s.cur], curLine := s.curLine + 1);
    StepSpec(s, Strip(b[0]), toNum);
    assert Run(s, b, toNum) == Run(next, b[1..], toNum);
  }

  /** A facet of an STL file: its normal, then its vertices as they are read. */
  class STLFacet {
    var normal: Point
    var vertices: seq<Point>

    function Value(): FacetValue
      reads this
    {
      FacetValue(normal, vertices)
    }

    constructor WithNormal(normal: Point)
      ensures Value() == FacetValue(normal, [])
    {
      this.normal := normal;
      vertices := [];
    }

    /** `STLFacet(normalstr)`: the normal is read from the last three words of
        the line, and the facet starts with no vertices; a word that is not a
        number raises before any facet exists. */
    static method New(normalstr: string, toNum: string -> Option<real>) returns (r: Result<STLFacet>)
      ensures r.Err? <==> ReadTriple(normalstr, toNum).Err?
      ensures r.Err? ==> r.error == NotAFloat
      ensures r.Ok? ==> fresh(r.value) && r.value.Value() == FacetValue(ReadTriple(normalstr, toNum).value, [])
    {
      var normal := ReadTriple(normalstr, toNum);
      if normal.Err? {
        return Err(normal.error);
      }
      var f := new STLFacet.WithNormal(normal.value);
      return Ok(f);
    }

    /** `add_vertex(vstr)`: appends the point read from the last three words
        of the line; on a word that is not a number the facet is unchanged. */
    method AddVertex(vstr: string, toNum: string -> Option<real>) returns (o: Outcome)
      modifies this
      ensures o.Pass? <==> ReadTriple(vstr, toNum).Ok?
      ensures o.Fail? ==> o.error == NotAFloat && Value() == old(Value())
      ensures o.Pass? ==> Value() == FacetValue(old(normal), old(vertices) + [ReadTriple(vstr, toNum).value])
    {
      var v := ReadTriple(vstr, toNum);
      if v.Err? {
        return Fail(v.error);
      }
      vertices := vertices + [v.value];
      return Pass;
    }
  }

  /** The facet objects a list of filed facets refers to. */
  ghost function Listed(fs: seq<Option<STLFacet>>): set<STLFacet> {
    set i | 0 <= i < |fs| && fs[i].Some? :: fs[i].value
  }

  /** The contents of a list of filed facets. */
  ghost function Snapshot(fs: seq<Option<STLFacet>>): (r: seq<Option<FacetValue>>)
    reads Listed(fs)
    ensures |r| == |fs|
  {
    seq(|fs|, i requires 0 <= i < |fs| reads Listed(fs) =>
      if fs[i].Some? then Some(fs[i].value.Value()) else None)
  }

  lemma SnapshotAppend(fs: seq<Option<STLFacet>>, f: Option<STLFacet>)
    ensures Listed(fs + [f]) == Listed(fs) + (if f.Some? then {f.value} else {})
    ensures Snapshot(fs + [f]) == Snapshot(fs) + [if f.Some? then Some(f.value.Value()) else None]
  {
    var gs := fs + [f];
    assert forall i :: 0 <= i < |fs| ==> gs[i] == fs[i];
    if f.Some? {
      assert gs[|fs|] == f;
    }
  }

  /** An STL file being read (`STLFile`). */
  class STLFile {
    const path: string
    var mode: Option<STLMode>
    var curLine: int
    var curFacet: Option<STLFacet>
    var facets: seq<Option<STLFacet>>

    /** The open facet, as a set of objects. */
    ghost function Current(): set<STLFacet>
      reads this
    {
      if curFacet.Some? then {curFacet.value} else {}
    }

    /** The open facet is not one of the filed ones, so adding vertices to it
        leaves the filed facets alone. */
    ghost predicate Valid()
      reads this
    {
      curFacet.Some? ==> curFacet.value !in Listed(facets)
    }

    /** The reader's state as a value. */
    ghost function View(): ParseState
      reads this, Current(), Listed(facets)
    {
      ParseState(mode, curLine, if curFacet.Some? then Some(curFacet.value.Value()) else None, Snapshot(facets))
    }

    /** `STLFile(path, mode)`: line 1, no open facet, nothing filed.  A mode
        that is not an `STLMode` is a None. */
    constructor(path: string, mode: Option<STLMode>)
      ensures this.path == path && Valid()
      ensures View() == ParseState(mode, 1, None, [])
    {
      this.path := path;
      this.mode := mode;
      curLine := 1;
      curFacet := None;
      facets := [];
    }

    /** `get_facets()`: the list of filed facets itself (the same objects),
        whose contents are the filed facets of the state. */
    method GetFacets() returns (r: seq<Option<STLFacet>>)
      ensures r == facets && Snapshot(r) == View().facets
    {
      return facets;
    }

    /** `_process(line)`: one line, as `Step` says. */
    method Process(line: string, toNum: string -> Option<real>) returns (o: Outcome)
      requires Valid()
      modifies this, Current()
      ensures Valid()
      ensures curFacet.Some? ==> curFacet.value in old(Current()) || fresh(curFacet.value)
      ensures Step(old(View()), line, toNum).Ok? ==>
                o == Pass && View() == Step(old(View()), line, toNum).value
      ensures Step(old(View()), line, toNum).Err? ==>
                o == Fail(Step(old(View()), line, toNum).error) && View() == old(View())
    {
      ghost var before := View();
      if curLine == 1 {
        SetMode(Some(if "solid" <= line then Ascii else Binary));
        return Pass;
      }
      if "facet" <= line {
        var f := STLFacet.New(line, toNum);
        if f.Err? {
          return Fail(f.error);
        }
        StepFacetLine(before, line, toNum);
        OpenFacet(f.value);
        o := Pass;
      } else if "vertex" <= line {
        if curFacet.None? {
          return Fail(NoneAttribute);
        }
        o := AddToOpenFacet(line, toNum);
        if o.Pass? {
          StepVertexLine(before, line, toNum);
        }
      } else if "endloop" <= line {
        FileOpenFacet();
        o := Pass;
      } else {
        o := Pass;
      }
    }

    /** `self._mode = mode` */
    method SetMode(mode: Option<STLMode>)
      requires Valid()
      modifies this
      ensures Valid() && curFacet == old(curFacet)
      ensures View() == old(View()).(mode := mode)
    {
      this.mode := mode;
      assert Snapshot(facets) == old(Snapshot(facets));
    }

    /** `self._cur_facet = f`, for a facet that is not a filed one. */
    method OpenFacet(f: STLFacet)
      requires Valid() && f !in Listed(facets)
      modifies this
      ensures Valid() && curFacet == Some(f)
      ensures View() == old(View()).(cur := Some(f.Value()))
    {
      curFacet := Some(f);
      assert Snapshot(facets) == old(Snapshot(facets));
    }

    /** `self._cur_facet.add_vertex(line)`, with a facet open. */
    method AddToOpenFacet(line: string, toNum: string -> Option<real>) returns (o: Outcome)
      requires Valid() && curFacet.Some?
      modifies Current()
      ensures Valid()
      ensures o.Pass? <==> ReadTriple(line, toNum).Ok?
      ensures o.Fail? ==> o.error == NotAFloat && View() == old(View())
      ensures o.Pass? ==> View() == old(View()).(cur := Some(FacetValue(old(curFacet.value.normal),
                                    old(curFacet.value.vertices) + [ReadTriple(line, toNum).value])))
    {
      o := curFacet.value.AddVertex(line, toNum);
      assert Snapshot(facets) == old(Snapshot(facets));
    }

    /** `self._facets.append(self._cur_facet)` then `self._cur_facet = None`. */
    method FileOpenFacet()
      requires Valid()
      modifies this
      ensures Valid() && curFacet == None
      ensures View() == old(View()).(cur := None, facets := old(View()).facets + [old(View()).cur])
    {
      SnapshotAppend(facets, curFacet);
      facets := facets + [curFacet];
      curFacet := None;
      assert Snapshot(facets) == old(Snapshot(facets + [curFacet]));
    }

    /** `_cur_line += 1`: moves on to the next line and changes nothing else. */
    method NextLine()
      requires Valid()
      modifies this
      ensures Valid() && curFacet == old(curFacet) && facets == old(facets)
      ensures View() == old(View()).(curLine := old(curLine) + 1)
    {
      curLine := curLine + 1;
      assert Snapshot(facets) == old(Snapshot(facets));
    }

    /** `load()`: for an ASCII file that exists, every line of it in turn, as
        `Run` says; a missing file, a binary file and any other mode raise
        before anything is read.  The existence test and the file's lines
        are given as `fileExists` and `lines`. */
    method Load(fileExists: bool, lines: seq<string>, toNum: string -> Option<real>) returns (o: Outcome)
      requires Valid()
      modifies this, Current()
      ensures Valid()
      ensures old(mode) == Some(Ascii) && fileExists ==>
                o == Run(old(View()), lines, toNum).outcome && View() == Run(old(View()), lines, toNum).state
      ensures old(mode) == Some(Ascii) && !fileExists ==> o == Fail(FileNotFound) && View() == old(View())
      ensures old(mode) == Some(Binary) ==> o == Fail(NotImplemented) && View() == old(View())
      ensures old(mode).None? ==> o == Fail(NoModeSpecified) && View() == old(View())
    {
      if mode == Some(Ascii) {
        if !fileExists {
          return Fail(FileNotFound);
        }
        o := ReadLines(lines, toNum);
      } else if mode == Some(Binary) {
        return Fail(NotImplemented);
      } else {
        return Fail(NoModeSpecified);
      }
    }

    /** The read loop of `load()`: strip a line, process it, count it. */
    method ReadLines(lines: seq<string>, toNum: string -> Option<real>) returns (o: Outcome)
      requires Valid()
      modifies this, Current()
      ensures Valid()
      ensures o == Run(old(View()), lines, toNum).outcome && View() == Run(old(View()), lines, toNum).state
    {
      var i := 0;
      while i < |lines|
        invariant 0 <= i <= |lines|
        invariant Valid()
        invariant curFacet.Some? ==> curFacet.value in old(Current()) || fresh(curFacet.value)
        invariant Run(old(View()), lines, toNum) == Run(View(), lines[i..], toNum)
      {
        SplitAt(lines, i);
        o := ReadLine(lines[i..], toNum);
        if o.Fail? {
          return;
        }
        i := i + 1;
      }
      return Pass;
    }

    /** One turn of the read loop: strip the first of `lines`, process it and
        count it.  What is left to do is the run over the remaining lines. */
    method ReadLine(lines: seq<string>, toNum: string -> Option<real>) returns (o: Outcome)
      requires Valid() && lines != []
      modifies this, Current()
      ensures Valid()
      ensures curFacet.Some? ==> curFacet.value in old(Current()) || fresh(curFacet.value)
      ensures o.Fail? ==> Run(old(View()), lines, toNum) == Progress(View(), o)
      ensures o.Pass? ==> Run(old(View()), lines, toNum) == Run(View(), lines[1..], toNum)
    {
      RunFirstLine(View(), lines, toNum);
      o := Process(Strip(lines[0]), toNum);
      if o.Pass? {
        NextLine();
      }
    }
  }
}
