/**
 The `KEY=value` environment files of common.py: `load_env_data_as_dict`
 turns the lines of such a file into a dict, and `env_data_to_list` turns a
 dict back into `KEY=value` strings.

 The reader is modelled over the lines `readlines()` returns (each but
 possibly the last ending in a newline), not over a path.
 */
module EnvFile {
  import opened Results
  import Strings
  import opened OrderedDict

  /** The `ValueError` that `dict()` raises: "dictionary update sequence
      element #`element` has length `length`; 2 is required". `element`
      counts the kept lines only, from 0. */
  datatype ParseError = ElementLength(element: nat, length: nat)

  /** The generator's filter: a line is read as an entry unless it is blank
      (nothing left after `strip()`) or its very first character is `#`. */
  predicate Kept(line: string) {
    !Strings.Blank(line) && !Strings.StartsWith(line, '#')
  }

  /** The tuple built from a kept line: every newline deleted, then split
      at every `=`. */
  function Fields(line: string): seq<string> {
    Strings.Split(Strings.Remove(line, '\n'), '=')
  }

  /** A kept line that yields a key/value pair: exactly one `=`. */
  predicate WellFormed(line: string) {
    Strings.Count(Strings.Remove(line, '\n'), '=') == 1
  }

  /** The generator's filter: the kept lines, in file order. */
  function KeptLines(lines: seq<string>): (kept: seq<string>)
    ensures |kept| <= |lines|
    ensures forall j | 0 <= j < |kept| :: Kept(kept[j])
  {
    if |lines| == 0 then []
    else (if Kept(lines[0]) then [lines[0]] else []) + KeptLines(lines[1..])
  }

  /** The generator expression: the field tuple of each kept line. */
  function Elements(lines: seq<string>): (elems: seq<seq<string>>)
  {
    var kept := KeptLines(lines);
    seq(|kept|, j requires 0 <= j < |kept| => Fields(kept[j]))
  }

  /** `dict(elems)`: consumes the tuples in order, raising at the first one
      whose length is not 2; otherwise assigns each pair in turn. */
  function Build(elems: seq<seq<string>>): (r: Result<Dict, ParseError>)
    ensures r.Ok? <==> forall j | 0 <= j < |elems| :: |elems[j]| == 2
    ensures r.Ok? ==> Valid(r.value)
    ensures r.Err? ==>
      && r.error.element < |elems|
      && r.error.length == |elems[r.error.element]| != 2
      && forall j | 0 <= j < r.error.element :: |elems[j]| == 2
    decreases |elems|
  {
    if |elems| == 0 then Ok(Empty)
    else
      var n := |elems| - 1;
      assert forall j | 0 <= j < n :: elems[..n][j] == elems[j];
      match Build(elems[..n])
      case Err(e) => Err(e)
      case Ok(d) =>
        if |elems[n]| != 2 then Err(ElementLength(n, |elems[n]|))
        else Ok(Put(d, elems[n][0], elems[n][1]))
  }

  /** `load_env_data_as_dict`, given the file's lines. A failure points at
      a kept line, counted among the kept lines only. */
  function Parse(lines: seq<string>): (r: Result<Dict, ParseError>)
    ensures r.Ok? ==> Valid(r.value)
    ensures r.Err? ==> r.error.element < |KeptLines(lines)| && r.error.length != 2
  {
    Build(Elements(lines))
  }

  /** `env_data_to_list`: one `key=value` string per entry, in iteration
      order, as many as the dict has entries. */
  function Render(d: Dict): (out: seq<string>)
    requires Valid(d)
    ensures |out| == |d.keys| == |d.values|
    ensures forall i | 0 <= i < |out| :: out[i] == d.keys[i] + "=" + d.values[d.keys[i]]
  {
    seq(|d.keys|, i requires 0 <= i < |d.keys| => d.keys[i] + "=" + d.values[d.keys[i]])
  }

  /** Iterating over `items()` visits every entry: each one is rendered. */
  lemma RenderCoversEveryEntry(d: Dict)
    requires Valid(d)
    ensures forall k | k in d.values ::
      exists i | 0 <= i < |Render(d)| :: Render(d)[i] == k + "=" + d.values[k]
  {
    MappedKeysAreListed(d);
    forall k | k in d.values
      ensures exists i | 0 <= i < |Render(d)| :: Render(d)[i] == k + "=" + d.values[k]
    {
      var i :| 0 <= i < |d.keys| && d.keys[i] == k;
      assert Render(d)[i] == k + "=" + d.values[k];
    }
  }

  /** The lines of a file whose lines are `out`, each newline-terminated. */
  function WithNewlines(out: seq<string>): (lines: seq<string>)
  {
    seq(|out|, i requires 0 <= i < |out| => out[i] + "\n")
  }

  // ---------------------------------------------------------------------
  // The filter and the field split

  lemma {:induction false} KeptLinesAppend(a: seq<string>, b: seq<string>)
    ensures KeptLines(a + b) == KeptLines(a) + KeptLines(b)
    decreases |a|
  {
    if |a| == 0 {
      assert a + b == b;
    } else {
      assert (a + b)[0] == a[0];
      assert (a + b)[1..] == a[1..] + b;
      KeptLinesAppend(a[1..], b);
    }
  }

  /** Every line the filter passes is a kept line of the input. */
  lemma {:induction false} KeptLinesSound(lines: seq<string>)
    ensures forall j | 0 <= j < |KeptLines(lines)| ::
      Kept(KeptLines(lines)[j]) && KeptLines(lines)[j] in lines
    decreases |lines|
  {
    if |lines| > 0 {
      KeptLinesSound(lines[1..]);
      assert lines == [lines[0]] + lines[1..];
    } else {
      assert KeptLines(lines) == [];
    }
  }

  /** Every kept line of the input passes the filter. */
  lemma {:induction false} KeptLinesComplete(lines: seq<string>)
    ensures forall i | 0 <= i < |lines| && Kept(lines[i]) :: lines[i] in KeptLines(lines)
    decreases |lines|
  {
    if |lines| > 0 {
      KeptLinesComplete(lines[1..]);
      forall i | 0 <= i < |lines| && Kept(lines[i])
        ensures lines[i] in KeptLines(lines)
      {
        if i > 0 {
          assert lines[1..][i - 1] == lines[i];
        }
      }
    }
  }

  /** A line that is blank or starts with `#` contributes nothing, wherever
      it stands: the result (including the index an error reports) is the
      one obtained without it. */
  lemma SkippedLineIgnored(before: seq<string>, line: string, after: seq<string>)
    requires Strings.AllSpace(line) || Strings.StartsWith(line, '#')
    ensures Parse(before + [line] + after) == Parse(before + after)
  {
    Strings.BlankIffAllSpace(line);
    assert [line][0] == line && |[line][1..]| == 0;
    assert KeptLines([line]) == [];
    KeptLinesAppend(before + [line], after);
    KeptLinesAppend(before, [line]);
    KeptLinesAppend(before, after);
    assert KeptLines(before) + [] == KeptLines(before);
  }

  /** Whitespace before a `#` makes the line an ordinary entry: only a `#`
      in the very first column marks a comment. */
  lemma IndentedHashIsEntry(indent: string, rest: string)
    requires |indent| > 0 && Strings.AllSpace(indent)
    requires Strings.StartsWith(rest, '#')
    ensures Kept(indent + rest)
    ensures Elements([indent + rest]) == [Fields(indent + rest)]
  {
    var line: string := indent + rest;
    assert line[|indent|] == '#';
    assert !Strings.IsSpace(line[|indent|]);
    Strings.BlankIffAllSpace(line);
    assert |[line][1..]| == 0;
    assert KeptLines([line]) == [line];
  }

  /** Only newlines are deleted: a kept line's text, carriage returns and
      surrounding spaces included, reaches the split unchanged. */
  lemma NewlinesOnlyRemoved(text: string)
    requires '\n' !in text
    ensures Fields(text + "\n") == Strings.Split(text, '=')
    ensures Fields(text) == Strings.Split(text, '=')
  {
    Strings.RemoveAppend(text, "\n", '\n');
    Strings.RemoveAbsent(text, '\n');
    assert Strings.Remove("\n", '\n') == "" by {
      assert "\n"[1..] == "";
    }
    assert text + "" == text;
  }

  /** A line with exactly one `=` yields the text before it as key and the
      text after it as value, with or without the trailing newline
      `readlines()` leaves on it. */
  lemma KeyValueAroundSeparator(line: string, i: nat)
    requires '\n' !in line
    requires i < |line| && line[i] == '='
    requires '=' !in line[..i] && '=' !in line[i + 1..]
    ensures WellFormed(line)
    ensures Fields(line) == [line[..i], line[i + 1..]]
    ensures Fields(line + "\n") == [line[..i], line[i + 1..]]
  {
    NewlinesOnlyRemoved(line);
    assert line == line[..i] + ['='] + line[i + 1..];
    Strings.SplitPair(line[..i], line[i + 1..], '=');
  }

  // ---------------------------------------------------------------------
  // Failure

  /** The parse fails exactly when some kept line has no `=` or more than one. */
  lemma ParseFailsIffMalformedLine(lines: seq<string>)
    ensures Parse(lines).Err? <==>
      exists i | 0 <= i < |lines| :: Kept(lines[i]) && !WellFormed(lines[i])
  {
    var kept := KeptLines(lines);
    var elems := Elements(lines);
    KeptLinesSound(lines);
    KeptLinesComplete(lines);
    if Parse(lines).Err? {
      var j :| 0 <= j < |elems| && |elems[j]| != 2;
      assert elems[j] == Fields(kept[j]);
      var i :| 0 <= i < |lines| && lines[i] == kept[j];
      assert Kept(lines[i]) && !WellFormed(lines[i]);
    }
    if exists i | 0 <= i < |lines| :: Kept(lines[i]) && !WellFormed(lines[i]) {
      var i :| 0 <= i < |lines| && Kept(lines[i]) && !WellFormed(lines[i]);
      var j :| 0 <= j < |kept| && kept[j] == lines[i];
      assert |elems[j]| != 2;
    }
  }

  /** The error names the first malformed kept line: its index among the
      kept lines and the number of fields it splits into. */
  lemma FirstMalformedLineReported(lines: seq<string>, i: nat)
    requires i < |lines| && Kept(lines[i]) && !WellFormed(lines[i])
    requires forall h | 0 <= h < i :: Kept(lines[h]) ==> WellFormed(lines[h])
    ensures Parse(lines) == Err(ElementLength(|KeptLines(lines[..i])|, |Fields(lines[i])|))
  {
    var pre := KeptLines(lines[..i]);
    assert lines == lines[..i] + [lines[i]] + lines[i + 1..];
    KeptLinesAppend(lines[..i] + [lines[i]], lines[i + 1..]);
    KeptLinesAppend(lines[..i], [lines[i]]);
    assert |[lines[i]][1..]| == 0;
    assert KeptLines([lines[i]]) == [lines[i]];
    var kept := KeptLines(lines);
    assert kept == pre + [lines[i]] + KeptLines(lines[i + 1..]);
    var elems := Elements(lines);
    KeptLinesSound(lines[..i]);
    forall j | 0 <= j < |pre|
      ensures |elems[j]| == 2
    {
      assert kept[j] == pre[j];
      var h :| 0 <= h < i && lines[..i][h] == pre[j];
      assert lines[h] == pre[j];
    }
    assert elems[|pre|] == Fields(lines[i]);
    var r := Build(elems);
    assert r.Err?;
    assert r.error.element == |pre|;
  }

  // ---------------------------------------------------------------------
  // dict() semantics

  /** Key `k` is read from some tuple. */
  predicate Occurs(elems: seq<seq<string>>, k: string)
    requires forall j | 0 <= j < |elems| :: |elems[j]| == 2
  {
    exists j | 0 <= j < |elems| :: elems[j][0] == k
  }

  /** Tuple `j` is the last one for its key. */
  predicate LastFor(elems: seq<seq<string>>, j: nat)
    requires j < |elems|
    requires forall h | 0 <= h < |elems| :: |elems[h]| == 2
  {
    forall h | j < h < |elems| :: elems[h][0] != elems[j][0]
  }

  /** Key `a` is read before key `b` is first read. */
  predicate ReadBefore(elems: seq<seq<string>>, a: string, b: string)
    requires forall j | 0 <= j < |elems| :: |elems[j]| == 2
  {
    exists j | 0 <= j < |elems| :: elems[j][0] == a && forall h | 0 <= h <= j :: elems[h][0] != b
  }

  /** One more well-formed tuple assigns its pair to the dict built so far. */
  lemma BuildStep(elems: seq<seq<string>>)
    requires |elems| > 0
    requires forall j | 0 <= j < |elems| :: |elems[j]| == 2
    ensures Build(elems[..|elems| - 1]).Ok?
    ensures Build(elems) == Ok(Put(Build(elems[..|elems| - 1]).value, elems[|elems| - 1][0], elems[|elems| - 1][1]))
  {
    var n := |elems| - 1;
    assert forall j | 0 <= j < n :: elems[..n][j] == elems[j];
  }

  /** From well-formed tuples `dict()` keeps exactly the keys read. */
  lemma {:induction false} BuildKeys(elems: seq<seq<string>>)
    requires forall j | 0 <= j < |elems| :: |elems[j]| == 2
    ensures Build(elems).Ok?
    ensures forall j | 0 <= j < |elems| :: elems[j][0] in Build(elems).value.values
    ensures forall k | k in Build(elems).value.values :: Occurs(elems, k)
    decreases |elems|
  {
    if |elems| > 0 {
      var n := |elems| - 1;
      var pre := elems[..n];
      assert forall j | 0 <= j < n :: pre[j] == elems[j];
      BuildKeys(pre);
      BuildStep(elems);
      var d := Build(pre).value;
      var e := elems[n];
      var d' := Build(elems).value;
      assert d'.values == d.values[e[0] := e[1]];
      forall j | 0 <= j < |elems|
        ensures elems[j][0] in d'.values
      {
        if j < n {
          assert pre[j][0] in d.values;
        }
      }
      forall k | k in d'.values
        ensures Occurs(elems, k)
      {
        if k != e[0] {
          assert k in d.values;
          var j :| 0 <= j < n && pre[j][0] == k;
          assert elems[j][0] == k;
        }
      }
    }
  }

  /** Each key read takes the value of its last tuple. */
  lemma {:induction false} BuildLastValueWins(elems: seq<seq<string>>)
    requires forall j | 0 <= j < |elems| :: |elems[j]| == 2
    ensures Build(elems).Ok?
    ensures forall j | 0 <= j < |elems| && LastFor(elems, j) ::
      elems[j][0] in Build(elems).value.values &&
      Build(elems).value.values[elems[j][0]] == elems[j][1]
    decreases |elems|
  {
    if |elems| > 0 {
      var n := |elems| - 1;
      var pre := elems[..n];
      assert forall j | 0 <= j < n :: pre[j] == elems[j];
      BuildLastValueWins(pre);
      BuildStep(elems);
      var e := elems[n];
      var d := Build(pre).value;
      var d' := Build(elems).value;
      forall j | 0 <= j < |elems| && LastFor(elems, j)
        ensures elems[j][0] in d'.values && d'.values[elems[j][0]] == elems[j][1]
      {
        if j < n {
          assert elems[j][0] != e[0];
          assert LastFor(pre, j);
        }
      }
    }
  }

  /** Keys iterate in the order of their first appearance. */
  lemma {:induction false} BuildKeyOrder(elems: seq<seq<string>>)
    requires forall j | 0 <= j < |elems| :: |elems[j]| == 2
    ensures Build(elems).Ok?
    ensures forall p, q | 0 <= p < q < |Build(elems).value.keys| ::
      ReadBefore(elems, Build(elems).value.keys[p], Build(elems).value.keys[q])
    decreases |elems|
  {
    if |elems| > 0 {
      var n := |elems| - 1;
      var pre := elems[..n];
      BuildKeyOrder(pre);
      BuildKeys(pre);
      BuildStep(elems);
      var e := elems[n];
      var d := Build(pre).value;
      var d' := Build(elems).value;
      forall p, q | 0 <= p < q < |d.keys|
        ensures ReadBefore(elems, d.keys[p], d.keys[q])
      {
        OrderKeptByPrefix(elems, d.keys[p], d.keys[q]);
      }
      if e[0] !in d.values {
        assert d'.keys == d.keys + [e[0]];
        forall p, q | 0 <= p < q < |d'.keys|
          ensures ReadBefore(elems, d'.keys[p], d'.keys[q])
        {
          assert d'.keys[p] == d.keys[p];
          if q < |d.keys| {
            assert d'.keys[q] == d.keys[q];
          } else {
            NewKeyReadLast(elems, d.keys[p]);
          }
        }
      }
    }
  }

  lemma OrderKeptByPrefix(elems: seq<seq<string>>, a: string, b: string)
    requires |elems| > 0
    requires forall j | 0 <= j < |elems| :: |elems[j]| == 2
    requires ReadBefore(elems[..|elems| - 1], a, b)
    ensures ReadBefore(elems, a, b)
  {
    var pre := elems[..|elems| - 1];
    var j :| 0 <= j < |pre| && pre[j][0] == a && forall h | 0 <= h <= j :: pre[h][0] != b;
    assert elems[j][0] == a;
    assert forall h | 0 <= h <= j :: elems[h] == pre[h];
  }

  lemma NewKeyReadLast(elems: seq<seq<string>>, a: string)
    requires |elems| > 0
    requires forall j | 0 <= j < |elems| :: |elems[j]| == 2
    requires Occurs(elems[..|elems| - 1], a)
    requires !Occurs(elems[..|elems| - 1], elems[|elems| - 1][0])
    ensures ReadBefore(elems, a, elems[|elems| - 1][0])
  {
    var n := |elems| - 1;
    var pre := elems[..n];
    var j :| 0 <= j < n && pre[j][0] == a;
    assert elems[j][0] == a;
    forall h | 0 <= h <= j
      ensures elems[h][0] != elems[n][0]
    {
      assert elems[h] == pre[h];
    }
  }

  /** Appending a well-formed line assigns its key: a repeated key takes the
      new value in its old place; a new key goes last. */
  lemma ParseAppendLine(lines: seq<string>, line: string)
    requires Parse(lines).Ok?
    requires Kept(line) && WellFormed(line)
    ensures Parse(lines + [line]) == Ok(Put(Parse(lines).value, Fields(line)[0], Fields(line)[1]))
  {
    KeptLinesAppend(lines, [line]);
    assert |[line][1..]| == 0;
    assert KeptLines([line]) == [line];
    var elems := Elements(lines + [line]);
    assert elems[..|elems| - 1] == Elements(lines);
  }

  // ---------------------------------------------------------------------
  // Round trip

  /** A dict whose entries survive being written out and read back: no key
      or value holds `=` or a newline, and no key starts with `#`. */
  predicate Renderable(d: Dict) {
    && Valid(d)
    && forall k | k in d.values ::
         && '=' !in k && '\n' !in k && !Strings.StartsWith(k, '#')
         && '=' !in d.values[k] && '\n' !in d.values[k]
  }

  /** Every line of a rendered dict is kept and splits into its entry. */
  lemma RenderedLine(k: string, v: string)
    requires '=' !in k && '\n' !in k && !Strings.StartsWith(k, '#')
    requires '=' !in v && '\n' !in v
    ensures Kept(k + "=" + v + "\n")
    ensures Fields(k + "=" + v + "\n") == [k, v]
  {
    var line := k + "=" + v + "\n";
    assert line[|k|] == '=' && !Strings.IsSpace(line[|k|]);
    Strings.BlankIffAllSpace(line);
    assert !Strings.StartsWith(line, '#') by {
      if |k| > 0 {
        assert line[0] == k[0];
      }
    }
    assert '\n' !in k + "=" + v;
    NewlinesOnlyRemoved(k + "=" + v);
    assert k + "=" + v + "\n" == (k + "=" + v) + "\n";
    Strings.SplitPair(k, v, '=');
  }

  lemma {:induction false} KeptLinesAllKept(lines: seq<string>)
    requires forall i | 0 <= i < |lines| :: Kept(lines[i])
    ensures KeptLines(lines) == lines
    decreases |lines|
  {
    if |lines| > 0 {
      KeptLinesAllKept(lines[1..]);
      assert lines == [lines[0]] + lines[1..];
    }
  }

  /** Assigning each entry of `d`, in order, rebuilds `d`. */
  lemma {:induction false} BuildOfEntries(d: Dict, elems: seq<seq<string>>)
    requires Valid(d)
    requires |elems| == |d.keys|
    requires forall i | 0 <= i < |elems| :: elems[i] == [d.keys[i], d.values[d.keys[i]]]
    ensures Build(elems) == Ok(d)
    decreases |elems|
  {
    if |elems| == 0 {
      assert d.values == map[];
    } else {
      var n := |elems| - 1;
      var rest := DropLast(d);
      forall i | 0 <= i < n
        ensures elems[..n][i] == [rest.keys[i], rest.values[rest.keys[i]]]
      {
        assert d.keys[i] != d.keys[n];
      }
      BuildOfEntries(rest, elems[..n]);
      BuildStep(elems);
    }
  }

  /** Rendering a dict with `env_data_to_list`, ending each entry with a
      newline, and parsing those lines gives back the same dict, in the same
      order. */
  lemma RoundTrip(d: Dict)
    requires Renderable(d)
    ensures Parse(WithNewlines(Render(d))) == Ok(d)
  {
    var out := Render(d);
    var lines := WithNewlines(out);
    forall i | 0 <= i < |lines|
      ensures Kept(lines[i]) && Fields(lines[i]) == [d.keys[i], d.values[d.keys[i]]]
    {
      RenderedLine(d.keys[i], d.values[d.keys[i]]);
    }
    KeptLinesAllKept(lines);
    BuildOfEntries(d, Elements(lines));
  }

}
