/** Spreadsheet cells and the character-level rewrites the ingestion applies
    to them: pandas' `Series.replace(c, repl, regex=True)` with a
    one-character pattern, and Python's `str.replace`. */
module SheetText {

  /** A cell of the sheet as pandas hands it over: a text value, or NaN for
      an empty cell. */
  datatype Cell = Text(s: string) | Missing

  /** `str(cell)`: the text itself, or "nan" for an empty cell. */
  function Show(cell: Cell): (r: string)
    ensures cell.Text? ==> r == cell.s
    ensures cell.Missing? ==> ':' !in r && '.' !in r
  {
    match cell
    case Text(s) => s
    case Missing => "nan"
  }

  /** Applies a text rewrite to a text cell; pandas leaves NaN cells alone. */
  function MapText(cell: Cell, f: string -> string): (r: Cell)
    ensures cell.Missing? <==> r.Missing?
    ensures cell.Text? ==> r.s == f(cell.s)
  {
    match cell
    case Text(s) => Text(f(s))
    case Missing => Missing
  }

  /** `s` with every occurrence of `c` deleted (`replace(c, "")`). */
  function RemoveChar(s: string, c: char): (r: string)
    ensures c !in r
    ensures multiset(r) == multiset(s)[c := 0]
    ensures c !in s ==> r == s
    decreases |s|
  {
    if s == [] then []
    else
      assert s == [s[0]] + s[1..];
      (if s[0] == c then [] else [s[0]]) + RemoveChar(s[1..], c)
  }

  /** Deleting a character commutes with concatenation, so the characters
      that stay keep their order. */
  lemma {:induction false} RemoveCharAppend(a: string, b: string, c: char)
    ensures RemoveChar(a + b, c) == RemoveChar(a, c) + RemoveChar(b, c)
    decreases |a|
  {
    if a == [] {
      assert a + b == b;
    } else {
      assert (a + b)[0] == a[0];
      assert (a + b)[1..] == a[1..] + b;
      RemoveCharAppend(a[1..], b, c);
    }
  }

  /** Deleting the one occurrence of `c` between two `c`-free strings
      rejoins them. */
  lemma RemoveInsertedChar(a: string, b: string, c: char)
    requires c !in a && c !in b
    ensures RemoveChar(a + [c] + b, c) == a + b
  {
    RemoveCharAppend(a + [c], b, c);
    RemoveCharAppend(a, [c], c);
  }

  /** `s` with every `c` replaced by `d`. */
  function ReplaceChar(s: string, c: char, d: char): (r: string)
    ensures |r| == |s|
    ensures forall i :: 0 <= i < |s| ==> r[i] == if s[i] == c then d else s[i]
    decreases |s|
  {
    if s == [] then [] else [if s[0] == c then d else s[0]] + ReplaceChar(s[1..], c, d)
  }

  /** How often `x` occurs after every `c` is replaced by `d`. */
  lemma {:induction false} ReplaceCharCount(s: string, c: char, d: char, x: char)
    requires c != d
    ensures multiset(ReplaceChar(s, c, d))[x] ==
      if x == c then 0 else if x == d then multiset(s)[d] + multiset(s)[c] else multiset(s)[x]
    decreases |s|
  {
    if s != [] {
      var r, rest := ReplaceChar(s, c, d), ReplaceChar(s[1..], c, d);
      ReplaceCharCount(s[1..], c, d, x);
      assert s == [s[0]] + s[1..];
      assert r == [r[0]] + rest;
      assert multiset(s)[x] == multiset{s[0]}[x] + multiset(s[1..])[x];
      assert multiset(s)[c] == multiset{s[0]}[c] + multiset(s[1..])[c];
      assert multiset(s)[d] == multiset{s[0]}[d] + multiset(s[1..])[d];
      assert multiset(r)[x] == multiset{r[0]}[x] + multiset(rest)[x];
    }
  }

  /** Replacing moves every occurrence of `c` onto `d` and leaves the
      count of every other character as it was. */
  lemma ReplaceCharCounts(s: string, c: char, d: char)
    requires c != d
    ensures var r := ReplaceChar(s, c, d);
      && multiset(r)[c] == 0
      && multiset(r)[d] == multiset(s)[d] + multiset(s)[c]
      && forall x :: x != c && x != d ==> multiset(r)[x] == multiset(s)[x]
  {
    ReplaceCharCount(s, c, d, c);
    ReplaceCharCount(s, c, d, d);
    forall x | x != c && x != d ensures multiset(ReplaceChar(s, c, d))[x] == multiset(s)[x] {
      ReplaceCharCount(s, c, d, x);
    }
  }

  /** Replacing keeps out every character that was absent and is not the
      replacement; in particular `c` itself is gone when `c != d`. */
  lemma ReplaceCharAbsent(s: string, c: char, d: char, x: char)
    requires x != d
    requires x == c || x !in s
    ensures x !in ReplaceChar(s, c, d)
  {
  }

  /** Replacing a character that does not occur changes nothing. */
  lemma ReplaceCharNoop(s: string, c: char, d: char)
    ensures c !in s ==> ReplaceChar(s, c, d) == s
  {
    var r := ReplaceChar(s, c, d);
    if c !in s {
      forall i | 0 <= i < |s| ensures r[i] == s[i] {
        assert s[i] in s;
      }
    }
  }

  /** Whether "oo" starts at position `i` of `s`. */
  predicate OOAt(s: string, i: nat)
    requires i + 1 < |s|
  {
    s[i] == 'o' && s[i + 1] == 'o'
  }

  /** Whether `s` contains the substring "oo". */
  predicate HasOO(s: string) {
    exists i: nat :: i + 1 < |s| && OOAt(s, i)
  }

  /** Python's `s.replace('oo', '00')`: non-overlapping occurrences, taken
      from the left. */
  function ReplaceOO(s: string): (r: string)
    ensures |r| == |s|
    ensures |s| > 0 ==> r[0] == s[0] || (s[0] == 'o' && r[0] == '0')
    ensures !HasOO(r)
    decreases |s|
  {
    if |s| < 2 then s
    else if s[0] == 'o' && s[1] == 'o' then
      var rest := ReplaceOO(s[2..]);
      var r := "00" + rest;
      assert OOAt(s, 0);
      assert !HasOO(r) by {
        forall i: nat | i + 1 < |r| ensures !OOAt(r, i) {
          if i >= 2 { assert !OOAt(rest, i - 2); }
        }
      }
      r
    else
      var rest := ReplaceOO(s[1..]);
      var r := [s[0]] + rest;
      assert !HasOO(r) by {
        forall i: nat | i + 1 < |r| ensures !OOAt(r, i) {
          if i >= 1 { assert !OOAt(rest, i - 1); }
          else { assert r[1] == s[1..][0] || r[1] == '0'; }
        }
      }
      r
  }

  /** The repair takes "oo" from the left: in "ooo" the first two 'o's
      become '0's and the last stays. */
  lemma ReplaceOOFromLeft()
    ensures ReplaceOO("ooo") == "00o"
  {
    assert "ooo"[2..] == "o";
  }

  /** The repair only ever turns an 'o' into a '0'. */
  lemma {:induction false} ReplaceOOChangesOnlyOs(s: string)
    ensures forall i :: 0 <= i < |s| ==> ReplaceOO(s)[i] == s[i] || (s[i] == 'o' && ReplaceOO(s)[i] == '0')
    decreases |s|
  {
    if |s| >= 2 {
      if s[0] == 'o' && s[1] == 'o' {
        ReplaceOOChangesOnlyOs(s[2..]);
      } else {
        ReplaceOOChangesOnlyOs(s[1..]);
      }
    }
  }

  /** A string without "oo" is left as it is by the repair. */
  lemma {:induction false} ReplaceOOIdentity(s: string)
    requires !HasOO(s)
    ensures ReplaceOO(s) == s
    decreases |s|
  {
    if |s| >= 2 {
      assert !OOAt(s, 0);
      assert !HasOO(s[1..]) by {
        if HasOO(s[1..]) {
          var i: nat :| i + 1 < |s[1..]| && OOAt(s[1..], i);
          assert OOAt(s, i + 1);
        }
      }
      ReplaceOOIdentity(s[1..]);
      assert s == [s[0]] + s[1..];
    }
  }

  /** A prefix without any 'o' passes through the "oo" repair untouched. */
  lemma {:induction false} ReplaceOOSkipsPrefix(a: string, b: string)
    requires 'o' !in a
    ensures ReplaceOO(a + b) == a + ReplaceOO(b)
    decreases |a|
  {
    if a == [] {
      assert a + b == b;
    } else {
      var s := a + b;
      assert s[0] == a[0] && s[0] != 'o';
      assert s[1..] == a[1..] + b;
      ReplaceOOSkipsPrefix(a[1..], b);
      ReplaceOOKeepsLeading(s);
      assert a == [a[0]] + a[1..];
    }
  }

  /** One step of the repair over a leading character that is not 'o'. */
  lemma ReplaceOOKeepsLeading(s: string)
    requires |s| > 0 && s[0] != 'o'
    ensures ReplaceOO(s) == [s[0]] + ReplaceOO(s[1..])
  {
    if |s| < 2 {
      assert s[1..] == [];
      assert s == [s[0]];
    }
  }

  /** Without any 'o' there is no "oo". */
  lemma NoOOWithoutO(s: string)
    requires 'o' !in s
    ensures !HasOO(s)
  {
    forall i: nat | i + 1 < |s| ensures !OOAt(s, i) {
      assert s[i] in s;
    }
  }
}
