/**
  parseResponse(): the body of the verification server's answer, split into
  lines at "\n", each line split at "=", the first two pieces kept as key and
  value of an associative array; a later line with the same key overwrites an
  earlier one.
*/
module Response {
  import opened Wrappers
  import opened PhpStrings
  import opened Request

  /**
    The entry one line contributes: nothing for an empty line or a line
    without "=", otherwise the pieces before the first and the second "=".
  */
  function LineEntry(line: string): Option<Param> {
    if |line| == 0 then None
    else
      var keyValue := Explode(line, '=');
      if |keyValue| == 1 then None else Some((keyValue[0], keyValue[1]))
  }

  /** The array built from the lines, in order. */
  function Collect(lines: seq<string>): map<string, string> {
    if |lines| == 0 then map[]
    else
      var data := Collect(lines[..|lines| - 1]);
      match LineEntry(lines[|lines| - 1]) {
        case None => data
        case Some(kv) => data[kv.0 := kv.1]
      }
  }

  /** What parseResponse() returns for a body. */
  function ResponseData(body: string): map<string, string> {
    Collect(Explode(body, '\n'))
  }

  /** The loop of parseResponse(), with both of its skips. */
  method ParseResponse(body: string) returns (data: map<string, string>)
    ensures data == ResponseData(body)
  {
    data := map[];
    var lines := Explode(body, '\n');
    for i := 0 to |lines|
      invariant data == Collect(lines[..i])
    {
      assert lines[..i + 1][..i] == lines[..i];
      var line := lines[i];
      if |line| == 0 {
        continue;
      }
      var keyValue := Explode(line, '=');
      if |keyValue| == 1 {
        continue;
      }
      data := data[keyValue[0] := keyValue[1]];
    }
    assert lines[..|lines|] == lines;
  }

  /** The text up to the first "=", or all of it when there is none. */
  function UpToEquals(t: string): (r: string)
    ensures '=' !in r
  {
    if '=' in t then t[..IndexOf(t, '=')] else t
  }

  /**
    A line gives an entry exactly when it holds "="; the key is the text
    before the first "=", the value the text after it up to the next "=".
  */
  lemma {:induction false} LineEntryShape(line: string)
    ensures LineEntry(line).Some? <==> '=' in line
    ensures '=' in line ==> LineEntry(line).value.0 == line[..IndexOf(line, '=')]
    ensures '=' in line ==> LineEntry(line).value.1 == UpToEquals(line[IndexOf(line, '=') + 1..])
  {
    if '=' in line {
      var i := IndexOf(line, '=');
      var rest := line[i + 1..];
      var pieces := Explode(line, '=');
      assert pieces == [line[..i]] + Explode(rest, '=');
      ExplodeHead(rest, '=');
    } else {
      ExplodeHead(line, '=');
    }
  }

  /** The line holds an entry with key k. */
  predicate HasKey(line: string, k: string) {
    LineEntry(line).Some? && LineEntry(line).value.0 == k
  }

  /**
    A key is in the array exactly when some line carries it, and its value is
    the one of the last such line.
  */
  lemma CollectLookup(lines: seq<string>, k: string)
    ensures k in Collect(lines) <==> exists i :: 0 <= i < |lines| && HasKey(lines[i], k)
    ensures forall i :: 0 <= i < |lines| && HasKey(lines[i], k)
              && (forall j :: i < j < |lines| ==> !HasKey(lines[j], k))
              ==> Collect(lines)[k] == LineEntry(lines[i]).value.1
  {
    CollectMember(lines, k);
    forall i | 0 <= i < |lines| && HasKey(lines[i], k) && (forall j :: i < j < |lines| ==> !HasKey(lines[j], k))
      ensures Collect(lines)[k] == LineEntry(lines[i]).value.1
    {
      CollectLastValue(lines, k, i);
    }
  }

  /** What the last line does to key k: sets it, or leaves it as the lines before had it. */
  lemma CollectStep(lines: seq<string>, k: string)
    requires |lines| > 0
    ensures HasKey(lines[|lines| - 1], k) ==>
              k in Collect(lines) && Collect(lines)[k] == LineEntry(lines[|lines| - 1]).value.1
    ensures !HasKey(lines[|lines| - 1], k) ==>
              (k in Collect(lines) <==> k in Collect(lines[..|lines| - 1]))
              && (k in Collect(lines) ==> Collect(lines)[k] == Collect(lines[..|lines| - 1])[k])
  {
  }

  lemma {:induction false} CollectMember(lines: seq<string>, k: string)
    ensures k in Collect(lines) <==> exists i :: 0 <= i < |lines| && HasKey(lines[i], k)
    decreases |lines|
  {
    if |lines| > 0 {
      var init := lines[..|lines| - 1];
      CollectMember(init, k);
      CollectStep(lines, k);
      if !HasKey(lines[|lines| - 1], k) {
        if k in Collect(lines) {
          var i :| 0 <= i < |init| && HasKey(init[i], k);
          assert lines[i] == init[i];
        } else {
          forall i | 0 <= i < |lines| ensures !HasKey(lines[i], k) {
            if i < |init| {
              assert lines[i] == init[i];
            }
          }
        }
      }
    }
  }

  lemma {:induction false} CollectLastValue(lines: seq<string>, k: string, i: nat)
    requires i < |lines| && HasKey(lines[i], k)
    requires forall j :: i < j < |lines| ==> !HasKey(lines[j], k)
    ensures k in Collect(lines) && Collect(lines)[k] == LineEntry(lines[i]).value.1
    decreases |lines|
  {
    CollectStep(lines, k);
    if i < |lines| - 1 {
      var init := lines[..|lines| - 1];
      assert init[i] == lines[i];
      forall j | i < j < |init| ensures !HasKey(init[j], k) {
        assert init[j] == lines[j];
      }
      CollectLastValue(init, k, i);
    }
  }

  /** The body a server writes for some entries: one "key=value" line each. */
  function Render(es: seq<Param>): string {
    Implode(Pairs(es), '\n')
  }

  lemma EntryOfPair(e: Param)
    requires '=' !in e.0 && '=' !in e.1
    ensures LineEntry(Pair(e)) == Some(e)
  {
    assert Implode([e.0, e.1], '=') == Pair(e);
    ExplodeImplode([e.0, e.1], '=');
  }

  lemma RenderedLines(es: seq<Param>)
    requires |es| > 0 && FreeOf(es, '\n')
    ensures Explode(Render(es), '\n') == Pairs(es)
  {
    forall i | 0 <= i < |es| ensures '\n' !in Pairs(es)[i] {
      assert Pairs(es)[i] == es[i].0 + "=" + es[i].1;
    }
    ExplodeImplode(Pairs(es), '\n');
  }

  /**
    A body rendered from entries with distinct keys parses back to exactly
    those entries.
  */
  lemma ResponseRoundTrip(es: seq<Param>)
    requires |es| > 0 && FreeOf(es, '\n') && FreeOf(es, '=')
    requires forall i, j :: 0 <= i < j < |es| ==> es[i].0 != es[j].0
    ensures forall i :: 0 <= i < |es| ==> es[i].0 in ResponseData(Render(es)) && ResponseData(Render(es))[es[i].0] == es[i].1
    ensures forall k :: k in ResponseData(Render(es)) ==> exists i :: 0 <= i < |es| && es[i].0 == k
  {
    RenderedLines(es);
    var lines := Pairs(es);
    forall i | 0 <= i < |es| ensures LineEntry(lines[i]) == Some(es[i]) {
      EntryOfPair(es[i]);
    }
    forall i | 0 <= i < |es|
      ensures es[i].0 in Collect(lines) && Collect(lines)[es[i].0] == es[i].1
    {
      CollectLookup(lines, es[i].0);
    }
    forall k | k in Collect(lines) ensures exists i :: 0 <= i < |es| && es[i].0 == k {
      CollectLookup(lines, k);
    }
  }

  /**
    Two entry lines followed by two empty lines, as in "status=OK\nt=123\n\n":
    the empty lines are skipped and the second line overwrites the first when
    their keys agree.
  */
  lemma TwoEntries(k1: string, v1: string, k2: string, v2: string)
    requires '=' !in k1 && '=' !in v1 && '=' !in k2 && '=' !in v2
    requires '\n' !in k1 && '\n' !in v1 && '\n' !in k2 && '\n' !in v2
    ensures ResponseData(Pair((k1, v1)) + "\n" + Pair((k2, v2)) + "\n\n") == map[k1 := v1, k2 := v2]
  {
    var a, b := Pair((k1, v1)), Pair((k2, v2));
    PairFree((k1, v1), '\n');
    PairFree((k2, v2), '\n');
    FourLines(a, b);
    EntryOfPair((k1, v1));
    EntryOfPair((k2, v2));
    CollectFour(a, b, (k1, v1), (k2, v2));
  }

  lemma FourLines(a: string, b: string)
    requires '\n' !in a && '\n' !in b
    ensures Explode(a + "\n" + b + "\n\n", '\n') == [a, b, "", ""]
  {
    var lines := [a, b, "", ""];
    assert lines[1..][1..] == ["", ""];
    assert lines[1..] == [b, "", ""];
    assert Implode(["", ""], '\n') == "\n" by {
      assert ["", ""][1..] == [""];
    }
    assert Implode([b, "", ""], '\n') == b + "\n" + "\n";
    assert b + "\n" + "\n" == b + "\n\n";
    assert Implode(lines, '\n') == a + "\n" + b + "\n\n";
    ExplodeImplode(lines, '\n');
  }

  lemma CollectFour(a: string, b: string, e1: Param, e2: Param)
    requires LineEntry(a) == Some(e1) && LineEntry(b) == Some(e2)
    ensures Collect([a, b, "", ""]) == map[e1.0 := e1.1, e2.0 := e2.1]
  {
    var lines := [a, b, "", ""];
    assert lines[..3][..2][..1] == [a];
    assert lines[..3][..2] == [a, b];
    assert lines[..3] == [a, b, ""];
    assert Collect([a]) == map[e1.0 := e1.1];
    assert Collect([a, b]) == map[e1.0 := e1.1, e2.0 := e2.1];
    assert Collect([a, b, ""]) == Collect([a, b]);
  }

  /** A one-line answer "status=" + v + "\n" gives the array with status v and nothing else. */
  lemma StatusLine(v: string)
    requires '=' !in v && '\n' !in v
    ensures ResponseData("status=" + v + "\n") == map["status" := v]
  {
    var a := Pair(("status", v));
    assert "status=" + v == a;
    var lines := [a, ""];
    assert Implode(lines, '\n') == a + "\n";
    PairFree(("status", v), '\n');
    ExplodeImplode(lines, '\n');
    EntryOfPair(("status", v));
    assert lines[..1] == [a];
    assert Collect([a]) == map["status" := v];
  }

  lemma PairFree(e: Param, c: char)
    requires c != '=' && c !in e.0 && c !in e.1
    ensures c !in Pair(e)
  {
  }
}
