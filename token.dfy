/**
 * The display token of the two string-token generations (calcdialog's CalcPresenter and the
 * library's CalcDialog): the StringBuilder `valueStr` holding the typed number, with a
 * locale decimal separator and grouping separators inserted for display. Both generations
 * share the code modelled here: the grouping loop of formatValue, the deleting loop of
 * removeGroupSeparators, the point replacement of getCurrentValue, the erase and sign edits.
 */
module Token {
  import opened Wrappers
  import opened Text
  import opened Decimal

  /** The token with every occurrence of sep removed. */
  function Ungrouped(t: string, sep: char): (r: string)
    ensures sep !in r && |r| <= |t|
  {
    if t == [] then []
    else (if t[0] == sep then [] else [t[0]]) + Ungrouped(t[1..], sep)
  }

  lemma {:induction false} UngroupedAppend(a: string, b: string, sep: char)
    ensures Ungrouped(a + b, sep) == Ungrouped(a, sep) + Ungrouped(b, sep)
  {
    if a != [] {
      assert (a + b)[0] == a[0] && (a + b)[1..] == a[1..] + b;
      UngroupedAppend(a[1..], b, sep);
      var h := if a[0] == sep then [] else [a[0]];
      assert Ungrouped(a + b, sep) == h + Ungrouped(a[1..] + b, sep);
      assert Ungrouped(a, sep) == h + Ungrouped(a[1..], sep);
    } else {
      assert a + b == b;
    }
  }

  /** Removing separators from a token that holds none changes nothing. */
  lemma {:induction false} UngroupedWithout(t: string, sep: char)
    requires sep !in t
    ensures Ungrouped(t, sep) == t
  {
    if t != [] {
      UngroupedWithout(t[1..], sep);
    }
  }

  /** Removing the separators keeps every other character, in order. */
  lemma {:induction false} UngroupedKeeps(t: string, sep: char, c: char)
    requires c != sep
    ensures c in Ungrouped(t, sep) <==> c in t
  {
    if t != [] {
      UngroupedKeeps(t[1..], sep, c);
      assert t == [t[0]] + t[1..];
    }
  }

  /**
   * removeGroupSeparators' loop: from the last index down to the first, each separator is
   * deleted, so the part already visited has lost its separators and the rest is untouched.
   */
  method DeleteGroupSeparators(t: string, sep: char) returns (r: string)
    ensures r == Ungrouped(t, sep)
  {
    r := t;
    var i := |t| - 1;
    while i >= 0
      invariant -1 <= i < |t|
      invariant r == t[..i + 1] + Ungrouped(t[i + 1..], sep)
    {
      var a, c, u := t[..i], t[i], Ungrouped(t[i + 1..], sep);
      assert t[..i + 1] == a + [c];
      UngroupedFront(t, i, sep);
      if r[i] == sep {
        r := r[..i] + r[i + 1..];
        CharDeleted(a, c, u);
        assert r == a + ([] + u);
      } else {
        CharKept(a, c, u);
      }
      i := i - 1;
    }
    assert t[..0] == [] && t[0..] == t;
  }

  /** Ungrouped, one character at a time from index i. */
  lemma UngroupedFront(t: string, i: nat, sep: char)
    requires i < |t|
    ensures Ungrouped(t[i..], sep) == (if t[i] == sep then [] else [t[i]]) + Ungrouped(t[i + 1..], sep)
  {
    assert t[i..][1..] == t[i + 1..];
  }

  /** Deleting the character between a and b leaves a + b. */
  lemma CharDeleted(a: string, c: char, b: string)
    ensures (a + [c] + b)[..|a|] + (a + [c] + b)[|a| + 1..] == a + b
  {
    var w := a + [c] + b;
    assert w[..|a|] == a && w[|a| + 1..] == b;
  }

  lemma CharKept(a: string, c: char, b: string)
    ensures a + [c] + b == a + ([c] + b)
  {
  }

  /**
   * The iterations i, i-1, ..., 1 of formatValue's grouping loop on t: at index i the
   * separator is inserted when (start - i) is a multiple of size, except between a leading
   * '-' and the first digit.
   */
  function InsertGroups(t: string, sep: char, size: nat, start: int, i: int): (r: string)
    requires size > 0 && i <= |t|
    decreases i
  {
    if i <= 0 then t
    else
      var u := if (start - i) % size == 0 && (i != 1 || t[0] != '-') then t[..i] + [sep] + t[i..] else t;
      InsertGroups(u, sep, size, start, i - 1)
  }

  /** The loop of formatValue, run on a copy of the token. */
  method InsertGroupSeparators(t: string, sep: char, size: nat, start: int) returns (r: string)
    requires size > 0 && start <= |t|
    ensures r == InsertGroups(t, sep, size, start, start)
  {
    r := t;
    var i := start;
    while i > 0
      invariant i <= |r|
      invariant InsertGroups(r, sep, size, start, i) == InsertGroups(t, sep, size, start, start)
    {
      if (start - i) % size == 0 && (i != 1 || r[0] != '-') {
        r := r[..i] + [sep] + r[i..];
      }
      i := i - 1;
    }
  }

  /** Inserting separators and removing them again gives back the ungrouped token. */
  lemma {:induction false} InsertGroupsUngrouped(t: string, sep: char, size: nat, start: int, i: int)
    requires size > 0 && i <= |t|
    ensures Ungrouped(InsertGroups(t, sep, size, start, i), sep) == Ungrouped(t, sep)
    decreases i
  {
    if i > 0 {
      if (start - i) % size == 0 && (i != 1 || t[0] != '-') {
        var u := t[..i] + [sep] + t[i..];
        UngroupedInsert(t, i, sep);
        InsertGroupsUngrouped(u, sep, size, start, i - 1);
      } else {
        InsertGroupsUngrouped(t, sep, size, start, i - 1);
      }
    }
  }

  lemma UngroupedSeparator(sep: char)
    ensures Ungrouped([sep], sep) == []
  {
    assert [sep][1..] == [];
  }

  lemma UngroupedInsert(t: string, i: int, sep: char)
    requires 0 <= i <= |t|
    ensures Ungrouped(t[..i] + [sep] + t[i..], sep) == Ungrouped(t, sep)
  {
    var a, b := t[..i], t[i..];
    calc {
      Ungrouped(a + [sep] + b, sep);
      { UngroupedAppend(a + [sep], b, sep); }
      Ungrouped(a + [sep], sep) + Ungrouped(b, sep);
      { UngroupedAppend(a, [sep], sep); UngroupedSeparator(sep); }
      Ungrouped(a, sep) + Ungrouped(b, sep);
      { UngroupedAppend(a, b, sep); assert a + b == t; }
      Ungrouped(t, sep);
    }
  }

  /** Insertions stop at index i, so what follows the first i characters is carried along. */
  lemma {:induction false} InsertGroupsAppend(s: string, w: string, sep: char, size: nat, start: int, i: int)
    requires size > 0 && i <= |s|
    ensures InsertGroups(s + w, sep, size, start, i) == InsertGroups(s, sep, size, start, i) + w
    decreases i
  {
    if i > 0 {
      assert (s + w)[0] == s[0];
      if (start - i) % size == 0 && (i != 1 || s[0] != '-') {
        var u := s[..i] + [sep] + s[i..];
        assert (s + w)[..i] + [sep] + (s + w)[i..] == u + w;
        InsertGroupsAppend(u, w, sep, size, start, i - 1);
      } else {
        InsertGroupsAppend(s, w, sep, size, start, i - 1);
      }
    }
  }

  /** Only start modulo size decides where the loop inserts. */
  lemma {:induction false} InsertGroupsShift(s: string, sep: char, size: nat, start: int, i: int)
    requires size > 0 && i <= |s|
    ensures InsertGroups(s, sep, size, start, i) == InsertGroups(s, sep, size, start - size, i)
    decreases i
  {
    if i > 0 {
      ModShift(start - i, size);
      var u := if (start - i) % size == 0 && (i != 1 || s[0] != '-') then s[..i] + [sep] + s[i..] else s;
      InsertGroupsShift(u, sep, size, start, i - 1);
    }
  }

  lemma ModShift(a: int, n: int)
    requires n > 0
    ensures (a - n) % n == a % n
  {
    var q, r := a / n, a % n;
    assert a - n == (q - 1) * n + r;
    ModUnique(a - n, n, q - 1, r);
  }

  /** The remainder is the only r in [0, n) with a == q * n + r. */
  lemma ModUnique(a: int, n: int, q: int, r: int)
    requires n > 0 && 0 <= r < n && a == q * n + r
    ensures a % n == r
  {
    var q0, r0 := a / n, a % n;
    assert (q0 - q) * n == r - r0;
    if q0 > q {
      MulNonneg(q0 - q - 1, n);
    } else if q0 < q {
      MulNonneg(q - q0 - 1, n);
    }
  }

  /** The iterations strictly between start and start - size insert nothing. */
  lemma {:induction false} InsertGroupsSkip(s: string, sep: char, size: nat, start: int, j: int)
    requires size > 0 && start - size <= j < start && j <= |s|
    ensures InsertGroups(s, sep, size, start, j) == InsertGroups(s, sep, size, start, start - size)
    decreases j
  {
    if j > start - size && j > 0 {
      assert (start - j) % size == start - j;
      InsertGroupsSkip(s, sep, size, start, j - 1);
    }
  }

  /** The length of a leading '-'. */
  function SignLength(u: string): nat
  {
    if |u| > 0 && u[0] == '-' then 1 else 0
  }

  /** The digits d split into groups of size from the right, sep between two groups. */
  function Grouping(d: string, sep: char, size: nat): (r: string)
    requires size > 0
    decreases |d|
  {
    if |d| <= size then d
    else Grouping(d[..|d| - size], sep, size) + [sep] + d[|d| - size..]
  }

  /** Grouping inserts only separators. */
  lemma {:induction false} GroupingUngrouped(d: string, sep: char, size: nat)
    requires size > 0 && sep !in d
    ensures Ungrouped(Grouping(d, sep, size), sep) == d
    decreases |d|
  {
    if |d| <= size {
      UngroupedWithout(d, sep);
    } else {
      var k := |d| - size;
      assert sep !in d[..k] && sep !in d[k..] by {
        assert forall x :: x in d[..k] || x in d[k..] ==> x in d;
      }
      var g, a, b := Grouping(d[..k], sep, size), d[..k], d[k..];
      assert Grouping(d, sep, size) == g + [sep] + b;
      GroupingUngrouped(a, sep, size);
      UngroupedAppend(g + [sep], b, sep);
      UngroupedAppend(g, [sep], sep);
      assert Ungrouped([sep], sep) == [];
      UngroupedWithout(b, sep);
      assert Ungrouped(g + [sep] + b, sep) == a + [] + b;
      Rejoined(d, k);
    }
  }

  /** A sequence cut in two and put back together is itself. */
  lemma Rejoined(d: string, k: nat)
    requires k <= |d|
    ensures d[..k] + [] + d[k..] == d
  {
  }

  /** An integer part of at most size digits (after the sign) gets no separator. */
  lemma GroupingShort(u: string, sep: char, size: nat)
    requires size > 0 && |u| - size <= SignLength(u)
    ensures var h := SignLength(u);
      InsertGroups(u, sep, size, |u| - size, |u| - size) == u[..h] + Grouping(u[h..], sep, size)
  {
    var h, st := SignLength(u), |u| - size;
    assert u[..h] + u[h..] == u;
    if st == 1 {
      assert InsertGroups(u, sep, size, st, st) == InsertGroups(u, sep, size, st, 0);
    }
  }

  /** A longer one gets a separator before its last group, then the loop goes on as if started there. */
  lemma GroupingLong(u: string, sep: char, size: nat)
    requires size > 0 && |u| - size > SignLength(u)
    ensures var st := |u| - size;
      InsertGroups(u, sep, size, st, st) == InsertGroups(u[..st], sep, size, st - size, st - size) + [sep] + u[st..]
  {
    var st := |u| - size;
    var v, w := u[..st], [sep] + u[st..];
    assert InsertGroups(u, sep, size, st, st) == InsertGroups(v + w, sep, size, st, st - 1) by {
      assert (st - st) % size == 0;
      assert u[..st] + [sep] + u[st..] == v + w;
    }
    InsertGroupsAppend(v, w, sep, size, st, st - 1);
    InsertGroupsSkip(v, sep, size, st, st - 1);
    InsertGroupsShift(v, sep, size, st, st - size);
  }

  lemma GroupingLast(u: string, h: nat, sep: char, size: nat)
    requires size > 0 && h < |u| - size
    ensures Grouping(u[h..], sep, size) == Grouping(u[h..|u| - size], sep, size) + [sep] + u[|u| - size..]
  {
    var d := u[h..];
    assert d[..|d| - size] == u[h..|u| - size];
    assert d[|d| - size..] == u[|u| - size..];
  }

  /**
   * The grouping loop run from |u| - size over the integer part u puts a separator before
   * every group of size characters counted from the right, never at index 0 and never after
   * a leading '-'.
   */
  lemma {:induction false} InsertGroupsIsGrouping(u: string, sep: char, size: nat)
    requires size > 0
    ensures var h := SignLength(u);
      InsertGroups(u, sep, size, |u| - size, |u| - size) == u[..h] + Grouping(u[h..], sep, size)
    decreases |u|
  {
    var h, st := SignLength(u), |u| - size;
    if st <= h {
      GroupingShort(u, sep, size);
    } else {
      var v := u[..st];
      GroupingLong(u, sep, size);
      InsertGroupsIsGrouping(v, sep, size);
      assert SignLength(v) == h && v[..h] == u[..h] && v[h..] == u[h..st];
      var g := Grouping(u[h..st], sep, size);
      assert InsertGroups(u, sep, size, st, st) == u[..h] + g + [sep] + u[st..];
      GroupingLast(u, h, sep, size);
      SeparatorRegrouped(u[..h], g, sep, u[st..]);
    }
  }

  lemma SeparatorRegrouped(a: string, g: string, sep: char, t: string)
    ensures a + g + [sep] + t == a + (g + [sep] + t)
  {
  }

  /**
   * formatValue's grouping step: when size is positive the separator goes before every
   * group of size digits counted left from the decimal separator at p (from the end when p
   * is -1); a size of 0 inserts nothing.
   */
  function WithGroups(t: string, p: int, sep: char, size: int): (r: string)
    requires -1 <= p < |t|
  {
    if size > 0 then
      var end := if p == -1 then |t| else p;
      InsertGroups(t, sep, size, end - size, end - size)
    else t
  }

  /** The grouping step, stated without the loop: the integer part is grouped, the rest kept. */
  lemma GroupsBeforePoint(t: string, p: int, sep: char, size: int)
    requires -1 <= p < |t| && size > 0
    ensures var end := if p == -1 then |t| else p; var u := t[..end]; var h := SignLength(u);
      WithGroups(t, p, sep, size) == u[..h] + Grouping(u[h..], sep, size) + t[end..]
  {
    var end := if p == -1 then |t| else p;
    assert t == t[..end] + t[end..];
    InsertGroupsAppend(t[..end], t[end..], sep, size, end - size, end - size);
    InsertGroupsIsGrouping(t[..end], sep, size);
  }

  /** formatValue's first step (after the empty check): the first '.' becomes the decimal separator. */
  function PointLocalised(t: string, decimalSep: char): (r: string)
    ensures |r| == |t|
  {
    var p := IndexOf(t, '.');
    if p != -1 then t[p := decimalSep] else t
  }

  /** The index formatValue groups against: the replaced '.', or else a decimal separator. */
  function PointIndex(t: string, decimalSep: char): (r: int)
    ensures -1 <= r < |t|
  {
    var p := IndexOf(t, '.');
    if p != -1 then p else IndexOf(t, decimalSep)
  }

  /** formatValue on a non-empty token (or an empty one when no zero is shown). */
  function Formatted(t: string, decimalSep: char, groupSep: char, groupSize: int): (r: string)
  {
    WithGroups(PointLocalised(t, decimalSep), PointIndex(t, decimalSep), groupSep, groupSize)
  }

  /** formatValue's text work: the '.' localised, then the grouping separators inserted before it. */
  method FormatText(valueStr: string, decimalSep: char, groupSep: char, groupSize: int) returns (t: string)
    ensures t == Formatted(valueStr, decimalSep, groupSep, groupSize)
  {
    t := valueStr;
    var pointPos := IndexOf(t, '.');
    if pointPos != -1 {
      t := t[pointPos := decimalSep];
    } else {
      pointPos := IndexOf(t, decimalSep);
    }
    assert t == PointLocalised(valueStr, decimalSep) && pointPos == PointIndex(valueStr, decimalSep);
    if groupSize > 0 {
      var end := if pointPos == -1 then |t| else pointPos;
      t := InsertGroupSeparators(t, groupSep, groupSize, end - groupSize);
    }
  }

  /** removeGroupSeparators: nothing happens when grouping is off. */
  function GroupsRemoved(t: string, groupSep: char, groupSize: int): (r: string)
  {
    if groupSize > 0 then Ungrouped(t, groupSep) else t
  }

  /** Removing the grouping separators undoes formatValue's insertions. */
  lemma FormattedThenUngrouped(t: string, decimalSep: char, groupSep: char, groupSize: int)
    requires groupSep !in PointLocalised(t, decimalSep)
    ensures GroupsRemoved(Formatted(t, decimalSep, groupSep, groupSize), groupSep, groupSize) == PointLocalised(t, decimalSep)
  {
    var t1 := PointLocalised(t, decimalSep);
    if groupSize > 0 {
      var p := PointIndex(t, decimalSep);
      var end := if p == -1 then |t1| else p;
      InsertGroupsUngrouped(t1, groupSep, groupSize, end - groupSize, end - groupSize);
      UngroupedWithout(t1, groupSep);
    }
  }

  /** getCurrentValue's step before parsing: the first decimal separator becomes '.'. */
  function PointRestored(t: string, decimalSep: char): (r: string)
    ensures |r| == |t|
  {
    var p := IndexOf(t, decimalSep);
    if p != -1 then t[p := '.'] else t
  }

  /** Restoring the point undoes the localisation when the separator is new to the token. */
  lemma PointRoundTrip(t: string, decimalSep: char)
    requires decimalSep == '.' || decimalSep !in t
    ensures PointRestored(PointLocalised(t, decimalSep), decimalSep) == t
  {
    var p := IndexOf(t, '.');
    if p != -1 && decimalSep != '.' {
      var t1 := t[p := decimalSep];
      assert t1[..p] == t[..p];
      assert decimalSep !in t[..p] by {
        assert forall x :: x in t[..p] ==> x in t;
      }
      assert IndexOf(t1, decimalSep) == p by {
        IndexOfFirst(t1, decimalSep, p);
      }
    } else if p != -1 {
      assert IndexOf(t, '.') == p;
    }
  }

  /** The first index of c is the index that holds c with no c before it. */
  lemma IndexOfFirst(s: string, c: char, p: int)
    requires 0 <= p < |s| && s[p] == c && c !in s[..p]
    ensures IndexOf(s, c) == p
  {
  }

  /** The characters an erase does not leave at the end: the decimal separator and '-'. */
  predicate IsMark(c: char, decimalSep: char) { c == decimalSep || c == '-' }

  /** No two neighbouring characters of t are both marks, as in every typed number. */
  predicate MarksApart(t: string, decimalSep: char)
  {
    forall i :: 0 < i < |t| ==> !(IsMark(t[i - 1], decimalSep) && IsMark(t[i], decimalSep))
  }

  /**
   * The erase step of both generations on the ungrouped token: the last character is
   * deleted, then a decimal separator or '-' that has become last.
   */
  function ErasedTail(t: string, decimalSep: char): (r: string)
    requires |t| > 0
  {
    var u := t[..|t| - 1];
    if |u| > 0 && IsMark(u[|u| - 1], decimalSep) then u[..|u| - 1] else u
  }

  /** Erasing leaves no separator or '-' at the end of a typed number, and keeps its marks apart. */
  lemma ErasedTailClean(t: string, decimalSep: char)
    requires |t| > 0 && MarksApart(t, decimalSep)
    ensures var r := ErasedTail(t, decimalSep);
      (r == [] || !IsMark(r[|r| - 1], decimalSep)) && MarksApart(r, decimalSep) && r < t
  {
    var n := |t|;
    var u := t[..n - 1];
    if |u| > 0 && IsMark(u[|u| - 1], decimalSep) {
      var r := u[..|u| - 1];
      if |r| > 0 {
        assert r[|r| - 1] == t[n - 3] && u[|u| - 1] == t[n - 2];
      }
      assert forall i :: 0 <= i < |r| ==> r[i] == t[i];
    } else {
      assert forall i :: 0 <= i < |u| ==> u[i] == t[i];
    }
  }

  /** The sign key acts on every token but the empty one, "0" and "0" followed by the separator. */
  predicate SignApplies(t: string, decimalSep: char)
  {
    t != [] && t != "0" && t != "0" + [decimalSep]
  }

  /** The sign key's edit: a leading '-' is inserted, or deleted when present. */
  function SignToggled(t: string): (r: string)
    requires |t| > 0
  {
    if t[0] != '-' then ['-'] + t else t[1..]
  }

  /** Toggling twice gives the token back when it does not start with two marks. */
  lemma SignToggledTwice(t: string)
    requires |t| > 0 && (t[0] == '-' ==> |t| > 1 && t[1] != '-')
    ensures |SignToggled(t)| > 0 && SignToggled(SignToggled(t)) == t
  {
    if t[0] != '-' {
      assert (['-'] + t)[1..] == t;
    } else {
      assert ['-'] + t[1..] == t;
    }
  }

  /** The decimal key's edit: a separator is appended when there is none, after a 0 on an empty token. */
  function PointAppended(t: string, decimalSep: char): (r: string)
  {
    if decimalSep in t then t
    else (if t == [] then "0" else t) + [decimalSep]
  }

  /**
   * After the decimal key the token holds a separator, its text before the first separator
   * is what was typed (or "0"), and pressing the key again changes nothing.
   */
  lemma PointAppendedOnce(t: string, decimalSep: char)
    ensures var r := PointAppended(t, decimalSep);
      decimalSep in r && PointAppended(r, decimalSep) == r &&
      (decimalSep in t ==> r == t) &&
      (decimalSep !in t && decimalSep != '0' ==>
        IndexOf(r, decimalSep) == |r| - 1 && r[..|r| - 1] == (if t == [] then "0" else t))
  {
    var r := PointAppended(t, decimalSep);
    if decimalSep !in t && decimalSep != '0' {
      var a := if t == [] then "0" else t;
      assert decimalSep !in a;
      IndexOfAfter(a, [decimalSep], decimalSep);
      assert r == a + [decimalSep];
      assert r[..|a|] == a;
    }
  }
}
