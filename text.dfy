/** Output text shared by the formatters: parts written one after another with a separator between neighbours. */
module Text {

  /** The parts in order, `sep` between each two consecutive parts and none after the last. */
  function Join(parts: seq<string>, sep: string): (r: string)
    ensures parts == [] ==> r == []
    ensures |parts| == 1 ==> r == parts[0]
  {
    if parts == [] then []
    else if |parts| == 1 then parts[0]
    else parts[0] + sep + Join(parts[1..], sep)
  }

  /** Total length of the parts. */
  function TotalLength(parts: seq<string>): nat
  {
    if parts == [] then 0 else |parts[0]| + TotalLength(parts[1..])
  }

  /** Joining from part i on writes part i, the separator, then the join of the rest. */
  lemma JoinFrom(parts: seq<string>, sep: string, i: nat, rest: string)
    requires i + 1 < |parts| && Join(parts[i + 1..], sep) == rest
    ensures Join(parts[i..], sep) == parts[i] + sep + rest
  {
    assert parts[i..][1..] == parts[i + 1..];
  }

  /** One more part at the end adds the separator and the part. */
  lemma {:induction false} JoinSnoc(parts: seq<string>, p: string, sep: string)
    requires parts != []
    ensures Join(parts + [p], sep) == Join(parts, sep) + sep + p
  {
    if |parts| == 1 {
      assert (parts + [p])[1..] == [p];
    } else {
      assert (parts + [p])[1..] == parts[1..] + [p];
      JoinSnoc(parts[1..], p, sep);
    }
  }

  /** The text is as long as the parts plus one separator per gap. */
  lemma {:induction false} JoinLength(parts: seq<string>, sep: string)
    requires parts != []
    ensures |Join(parts, sep)| == TotalLength(parts) + (|parts| - 1) * |sep|
  {
    if |parts| == 1 {
      assert parts[1..] == [];
    } else {
      JoinLength(parts[1..], sep);
    }
  }

  /**
   * What a loop that writes part i and then, unless i is the last, the
   * separator has written after `i` of the `n` parts.
   */
  function Written(parts: seq<string>, sep: string, i: nat): string
    requires i <= |parts|
  {
    if i == 0 then [] else Join(parts[..i], sep) + (if i < |parts| then sep else [])
  }

  /** Writing part i, then the separator when i is not the last, extends what was written by one step. */
  lemma WrittenStep(parts: seq<string>, sep: string, i: nat)
    requires i < |parts|
    ensures Written(parts, sep, i) + parts[i] + (if i < |parts| - 1 then sep else []) == Written(parts, sep, i + 1)
  {
    assert parts[..i + 1] == parts[..i] + [parts[i]];
    if i == 0 {
      assert parts[..1] == [parts[0]];
    } else {
      JoinSnoc(parts[..i], parts[i], sep);
    }
  }

  /** After all the parts, what was written is their join. */
  lemma WrittenAll(parts: seq<string>, sep: string)
    ensures Written(parts, sep, |parts|) == Join(parts, sep)
  {
    assert parts[..|parts|] == parts;
  }
}
