/**
 * The duplicate finder of apps/find_dups.c.
 *
 * A list of strings is a sequence; the empty sequence is the NULL list, so
 * a search without duplicates and a NULL input both give []. The string
 * array may itself be NULL, which is `None`. The table the finders fill is
 * the separate-chaining table with the kr2e string hash; its capacity,
 * UPO_HT_SEPCHAIN_DEFAULT_CAPACITY in the source, is a parameter here.
 */
module FindDuplicates {
  import opened Common
  import SeparateChaining
  import Hashing

  /** Every string that equals an earlier one, in the order of its position. */
  function Dups(s: seq<string>): (r: seq<string>)
    ensures |r| <= |s|
  {
    if s == [] then []
    else
      var init := s[..|s| - 1];
      Dups(init) + (if s[|s| - 1] in init then [s[|s| - 1]] else [])
  }

  /** A string is reported once for each occurrence after its first. */
  lemma {:induction false} DupsCount(s: seq<string>, x: string)
    ensures multiset(Dups(s))[x] == if multiset(s)[x] == 0 then 0 else multiset(s)[x] - 1
  {
    if s != [] {
      var init := s[..|s| - 1];
      DupsCount(init, x);
      assert s == init + [s[|s| - 1]];
      assert s[|s| - 1] in init <==> multiset(init)[s[|s| - 1]] > 0;
    }
  }

  /** The case-insensitive variant: a string is reported when its lowercase form equals an earlier one's. */
  function IDups(s: seq<string>): (r: seq<string>)
    ensures |r| <= |s|
  {
    if s == [] then []
    else
      var init := s[..|s| - 1];
      IDups(init) + (if Lower(s[|s| - 1]) in LowerAll(init) then [s[|s| - 1]] else [])
  }

  /** Lowercasing what the case-insensitive search reports gives the duplicates of the lowercased strings. */
  lemma {:induction false} IDupsLowered(s: seq<string>)
    ensures LowerAll(IDups(s)) == Dups(LowerAll(s))
  {
    if s != [] {
      var init := s[..|s| - 1];
      IDupsLowered(init);
      assert LowerAll(s)[..|s| - 1] == LowerAll(init);
      LowerAllAppend(IDups(init), if Lower(s[|s| - 1]) in LowerAll(init) then [s[|s| - 1]] else []);
    }
  }

  /** tolower on the 7-bit characters: A to Z map to a to z, everything else is kept. */
  function ToLower(c: char): (r: char)
    ensures 'A' <= c <= 'Z' ==> 'a' <= r <= 'z' && r as int - c as int == 32
    ensures !('A' <= c <= 'Z') ==> r == c
  {
    if 'A' <= c <= 'Z' then (c as int + 32) as char else c
  }

  function Lower(s: string): (r: string)
    ensures |r| == |s| && forall i :: 0 <= i < |s| ==> r[i] == ToLower(s[i])
  {
    seq(|s|, i requires 0 <= i < |s| => ToLower(s[i]))
  }

  function LowerAll(s: seq<string>): (r: seq<string>)
    ensures |r| == |s| && forall i :: 0 <= i < |s| ==> r[i] == Lower(s[i])
  {
    seq(|s|, i requires 0 <= i < |s| => Lower(s[i]))
  }

  lemma LowerAllAppend(s: seq<string>, t: seq<string>)
    ensures LowerAll(s + t) == LowerAll(s) + LowerAll(t)
  {
    assert forall i :: 0 <= i < |s + t| ==> LowerAll(s + t)[i] == (LowerAll(s) + LowerAll(t))[i];
  }

  /** Lowercasing twice is lowercasing once. */
  lemma LowerIdempotent(s: string)
    ensures Lower(Lower(s)) == Lower(s)
  {
    assert forall i :: 0 <= i < |s| ==> Lower(Lower(s))[i] == Lower(s)[i];
  }

  /** The table state after the first strings of the array: every string seen so far, bound to an equal string. */
  ghost function Seen(s: seq<string>): map<string, string>
  {
    map x | x in s :: x
  }

  /**
   * upo_to_lower_case: copy the string into a fresh buffer and map each
   * character through tolower in place; the source is untouched.
   */
  method ToLowerCase(src: string) returns (lowered: string)
    ensures lowered == Lower(src)
  {
    var buf := new char[|src|](i requires 0 <= i < |src| => src[i]);
    for i := 0 to buf.Length
      invariant forall p :: 0 <= p < i ==> buf[p] == ToLower(src[p])
      invariant forall p :: i <= p < buf.Length ==> buf[p] == src[p]
    {
      buf[i] := ToLower(buf[i]);
    }
    lowered := buf[..];
  }

  /**
   * upo_find_dups: put every string into the table with itself as value;
   * a previous value returned by put is a duplicate and is appended to the
   * list.
   */
  method FindDups(strs: Option<seq<string>>, capacity: nat) returns (list: seq<string>)
    requires 0 < capacity
    ensures list == if strs.None? then [] else Dups(strs.value)
  {
    if strs.None? {
      return [];
    }
    var s := strs.value;
    list := [];
    var table := new SeparateChaining.Table<string, string>(capacity, Hashing.Kr2eHasher());
    for i := 0 to |s|
      invariant table.Valid() && fresh(table.buckets) && table.buckets.Length == capacity
      invariant table.Contents() == Seen(s[..i])
      invariant list == Dups(s[..i])
    {
      list := NoteString(table, s, i, list);
    }
    assert s[..|s|] == s;
  }

  /** The body of upo_find_dups's loop: put the string, and report it when put hands back an old value. */
  method NoteString(table: SeparateChaining.Table<string, string>, s: seq<string>, i: nat, list: seq<string>)
    returns (list': seq<string>)
    requires table.Valid() && 0 < table.buckets.Length && i < |s|
    requires table.Contents() == Seen(s[..i]) && list == Dups(s[..i])
    modifies table.buckets
    ensures table.Valid() && table.Contents() == Seen(s[..i + 1]) && list' == Dups(s[..i + 1])
  {
    ghost var seen := table.Contents();
    var dup := table.Put(s[i], s[i]);
    DupsNext(s, i, seen, dup);
    list' := list;
    if dup.Some? {
      list' := list + [dup.value];
    }
  }

  /**
   * upo_find_idups: without ignore_case it is upo_find_dups; with it, the
   * lowercased copies go into the table and the original string is reported.
   */
  method FindIDups(strs: Option<seq<string>>, ignoreCase: bool, capacity: nat) returns (list: seq<string>)
    requires 0 < capacity
    ensures strs.None? ==> list == []
    ensures strs.Some? && !ignoreCase ==> list == Dups(strs.value)
    ensures strs.Some? && ignoreCase ==> list == IDups(strs.value)
  {
    if strs.None? {
      return [];
    }
    if !ignoreCase {
      list := FindDups(strs, capacity);
    } else {
      list := FindLowerDups(strs.value, capacity);
    }
  }

  /** The ignore-case branch of upo_find_idups: lowercased copies go into the table, originals are reported. */
  method FindLowerDups(s: seq<string>, capacity: nat) returns (list: seq<string>)
    requires 0 < capacity
    ensures list == IDups(s)
  {
    list := [];
    var table := new SeparateChaining.Table<string, string>(capacity, Hashing.Kr2eHasher());
    for i := 0 to |s|
      invariant table.Valid() && fresh(table.buckets) && table.buckets.Length == capacity
      invariant table.Contents() == Seen(LowerAll(s[..i]))
      invariant list == IDups(s[..i])
    {
      list := NoteLowered(table, s, i, list);
    }
    assert s[..|s|] == s;
  }

  /** The body of upo_find_idups's ignore-case loop: put the lowercase copy, and report the original on a repeat. */
  method NoteLowered(table: SeparateChaining.Table<string, string>, s: seq<string>, i: nat, list: seq<string>)
    returns (list': seq<string>)
    requires table.Valid() && 0 < table.buckets.Length && i < |s|
    requires table.Contents() == Seen(LowerAll(s[..i])) && list == IDups(s[..i])
    modifies table.buckets
    ensures table.Valid() && table.Contents() == Seen(LowerAll(s[..i + 1])) && list' == IDups(s[..i + 1])
  {
    var copy := ToLowerCase(s[i]);
    ghost var seen := table.Contents();
    var dup := table.Put(copy, copy);
    IDupsNext(s, i, seen, dup);
    list' := list;
    if dup.Some? {
      list' := list + [s[i]];
    }
  }

  /** The loop step of upo_find_dups: what put returns decides whether the string is reported. */
  lemma DupsNext(s: seq<string>, i: nat, seen: map<string, string>, dup: Option<string>)
    requires i < |s| && seen == Seen(s[..i]) && dup == Lookup(seen, s[i])
    ensures seen[s[i] := s[i]] == Seen(s[..i + 1])
    ensures Dups(s[..i + 1]) == Dups(s[..i]) + (if dup.Some? then [dup.value] else [])
  {
    DupsStep(s, i);
  }

  /** The loop step of upo_find_idups: the same with the lowercase forms in the table. */
  lemma IDupsNext(s: seq<string>, i: nat, seen: map<string, string>, dup: Option<string>)
    requires i < |s| && seen == Seen(LowerAll(s[..i])) && dup == Lookup(seen, Lower(s[i]))
    ensures seen[Lower(s[i]) := Lower(s[i])] == Seen(LowerAll(s[..i + 1]))
    ensures IDups(s[..i + 1]) == IDups(s[..i]) + (if dup.Some? then [s[i]] else [])
  {
    IDupsStep(s, i);
  }

  /** One more string: it joins the table, and it is reported when it was seen before. */
  lemma DupsStep(s: seq<string>, i: nat)
    requires i < |s|
    ensures Seen(s[..i + 1]) == Seen(s[..i])[s[i] := s[i]]
    ensures s[i] in Seen(s[..i]) ==> Seen(s[..i])[s[i]] == s[i]
    ensures Dups(s[..i + 1]) == Dups(s[..i]) + (if s[i] in Seen(s[..i]) then [s[i]] else [])
  {
    assert s[..i + 1][..i] == s[..i] && s[..i + 1][i] == s[i];
    assert s[..i + 1] == s[..i] + [s[i]];
  }

  /** One more string: the lowercased prefix grows by its lowercase form, and it is reported when that form was seen. */
  lemma IDupsStep(s: seq<string>, i: nat)
    requires i < |s|
    ensures LowerAll(s[..i + 1]) == LowerAll(s[..i]) + [Lower(s[i])]
    ensures Seen(LowerAll(s[..i + 1])) == Seen(LowerAll(s[..i]))[Lower(s[i]) := Lower(s[i])]
    ensures Lower(s[i]) in Seen(LowerAll(s[..i])) <==> Lower(s[i]) in LowerAll(s[..i])
    ensures IDups(s[..i + 1]) == IDups(s[..i]) + (if Lower(s[i]) in LowerAll(s[..i]) then [s[i]] else [])
  {
    IDupsSnoc(s, i);
  }

  lemma IDupsSnoc(s: seq<string>, i: nat)
    requires i < |s|
    ensures LowerAll(s[..i + 1]) == LowerAll(s[..i]) + [Lower(s[i])]
    ensures IDups(s[..i + 1]) == IDups(s[..i]) + (if Lower(s[i]) in LowerAll(s[..i]) then [s[i]] else [])
  {
    assert s[..i + 1][..i] == s[..i] && s[..i + 1][i] == s[i];
    var l := LowerAll(s[..i + 1]);
    assert l == LowerAll(s[..i]) + [Lower(s[i])];
  }

  /** The library's own example: only the second "tigri" repeats an earlier string exactly. */
  lemma DupsExample()
    ensures Dups(["Tre", "tigri", "contro", "tre", "tigri"]) == ["tigri"]
  {
    var s := ["Tre", "tigri", "contro", "tre", "tigri"];
    DupsExamplePrefix();
    assert s[..4] == ["Tre", "tigri", "contro", "tre"];
    assert s[4] in s[..4];
  }

  /** The first four example strings are pairwise distinct: case matters. */
  lemma DupsExamplePrefix()
    ensures Dups(["Tre", "tigri", "contro", "tre"]) == []
  {
    var s := ["Tre", "tigri", "contro", "tre"];
    DupsExampleThree();
    assert s[..3] == ["Tre", "tigri", "contro"];
    assert "tre"[0] != "Tre"[0] && "tre"[1] != "tigri"[1] && "tre"[0] != "contro"[0];
    assert s[3] !in s[..3];
  }

  lemma DupsExampleThree()
    ensures Dups(["Tre", "tigri", "contro"]) == []
  {
    var s := ["Tre", "tigri", "contro"];
    var t := ["Tre", "tigri"];
    assert Dups(t) == [] by {
      assert t[..1] == ["Tre"];
      assert Dups(["Tre"]) == [] by {
        assert ["Tre"][..0] == [];
      }
      assert "tigri"[0] != "Tre"[0];
    }
    assert s[..2] == t;
    assert "contro"[0] != "Tre"[0] && "contro"[0] != "tigri"[0];
    assert s[2] !in t;
  }

  /** A string without capital letters is its own lowercase form. */
  lemma LowerNoCapitals(s: string)
    requires forall i :: 0 <= i < |s| ==> !('A' <= s[i] <= 'Z')
    ensures Lower(s) == s
  {
  }

  /** The lowercase forms of the example strings. */
  lemma LowerAllExample(s: seq<string>)
    requires s == ["Tre", "tigri", "contro", "tre", "tigri"]
    ensures LowerAll(s) == ["tre", "tigri", "contro", "tre", "tigri"]
  {
    assert Lower("Tre") == "tre" by {
      var l := Lower("Tre");
      assert |l| == 3 && l[0] == 't' && l[1] == 'r' && l[2] == 'e';
    }
    LowerNoCapitals("tre");
    LowerNoCapitals("tigri");
    LowerNoCapitals("contro");
  }

  /** The first three example strings have pairwise different lowercase forms, so nothing is reported among them. */
  lemma IDupsExampleHead(s: seq<string>)
    requires s == ["Tre", "tigri", "contro", "tre", "tigri"]
    ensures IDups(s[..3]) == []
    ensures LowerAll(s[..3]) == ["tre", "tigri", "contro"]
  {
    LowerAllExample(s);
    var l := LowerAll(s);
    var t, g, c := l[0], l[1], l[2];
    assert t != g && t != c && g != c by {
      assert t[1] == 'r' && g[1] == 'i' && c[1] == 'o';
    }
    IDupsSnoc(s, 0);
    assert s[..0] == [];
    IDupsSnoc(s, 1);
    assert LowerAll(s[..1]) == [t];
    IDupsSnoc(s, 2);
    assert LowerAll(s[..2]) == [t, g];
    assert LowerAll(s[..3]) == l[..3];
  }

  /** Ignoring case, "tre" repeats "Tre" as well. */
  lemma IDupsExample()
    ensures IDups(["Tre", "tigri", "contro", "tre", "tigri"]) == ["tre", "tigri"]
  {
    var s := ["Tre", "tigri", "contro", "tre", "tigri"];
    IDupsExampleHead(s);
    LowerAllExample(s);
    var l := LowerAll(s);
    IDupsSnoc(s, 3);
    assert l[3] == LowerAll(s[..3])[0];
    IDupsSnoc(s, 4);
    assert l[4] == LowerAll(s[..4])[1];
    assert s[..5] == s;
  }
}
