/**
 * The Konami-code easter egg (easterEgg): a cursor into a fixed ten-key
 * sequence, moved by every keydown event of the document.
 *
 * The matcher reads only the sequence, its length and key equality, so its
 * functions and lemmas take the sequence as a parameter `code`; the widget
 * uses them with `Konami`.
 */
module EasterEgg {
  import opened Sequences

  /** The key names of the sequence, as the keydown event reports them. */
  const Konami: seq<string> :=
    ["ArrowUp", "ArrowUp", "ArrowDown", "ArrowDown", "ArrowLeft",
     "ArrowRight", "ArrowLeft", "ArrowRight", "b", "a"]

  /** The cursor after a key, and whether that key called activate. */
  datatype KeyResult = KeyResult(cursor: nat, activated: bool)

  /** One keydown event with the cursor at cur. */
  function Step<K(==)>(code: seq<K>, cur: nat, key: K): (r: KeyResult)
    requires cur < |code|
    ensures r.cursor < |code|
    ensures r.activated <==> cur == |code| - 1 && key == code[cur]
    ensures key == code[cur] && cur + 1 < |code| ==> r.cursor == cur + 1
    ensures key != code[cur] || r.activated ==> r.cursor == 0
  {
    if key == code[cur] then
      if cur + 1 == |code| then KeyResult(0, true) else KeyResult(cur + 1, false)
    else
      KeyResult(0, false)
  }

  /** The cursor after the given keys, starting from the page's initial 0. */
  function Cursor<K(==)>(code: seq<K>, keys: seq<K>): (c: nat)
    requires |code| > 0
    ensures c < |code|
  {
    if keys == [] then 0
    else Step(code, Cursor(code, keys[..|keys| - 1]), keys[|keys| - 1]).cursor
  }

  /** Whether the last of the given keys called activate. */
  predicate Activated<K(==)>(code: seq<K>, keys: seq<K>)
    requires |code| > 0
  {
    keys != [] && Step(code, Cursor(code, keys[..|keys| - 1]), keys[|keys| - 1]).activated
  }

  /** Cursor and Activated of keys followed by one more key. */
  lemma CursorSnoc<K>(code: seq<K>, keys: seq<K>, key: K)
    requires |code| > 0
    ensures Cursor(code, keys + [key]) == Step(code, Cursor(code, keys), key).cursor
    ensures Activated(code, keys + [key]) == Step(code, Cursor(code, keys), key).activated
  {
    assert (keys + [key])[..|keys|] == keys;
  }

  /**
   * The cursor counts the keys of the code just typed: when it is c, the last
   * c keys are the first c keys of the code, and it was 0 right before them.
   */
  lemma {:induction false} CursorSuffix<K>(code: seq<K>, keys: seq<K>)
    requires |code| > 0
    ensures Cursor(code, keys) <= |keys|
    ensures keys[|keys| - Cursor(code, keys)..] == code[..Cursor(code, keys)]
    ensures Cursor(code, keys[..|keys| - Cursor(code, keys)]) == 0
  {
    if keys != [] {
      var n := |keys|;
      var p, k := keys[..n - 1], keys[n - 1];
      SplitLast(keys);
      CursorSnoc(code, p, k);
      var cp, c := Cursor(code, p), Cursor(code, keys);
      if c == 0 {
        assert keys[..n] == keys;
      } else {
        CursorSuffix(code, p);
        SnocSlices(p, k, cp);
        PrefixSnoc(code, cp);
      }
    }
  }

  /** From cursor 0, the first c keys of the code (c short of the whole code) move the cursor to c. */
  lemma {:induction false} CursorExtend<K>(code: seq<K>, pre: seq<K>, c: nat)
    requires |code| > 0
    requires Cursor(code, pre) == 0 && c < |code|
    ensures Cursor(code, pre + code[..c]) == c
  {
    if c == 0 {
      assert code[..0] == [];
      assert pre + [] == pre;
    } else {
      CursorExtend(code, pre, c - 1);
      AppendPrefixSnoc(pre, code, c);
      CursorSnoc(code, pre + code[..c - 1], code[c - 1]);
    }
  }

  /** If activate ran, the last |code| keys are the code and the cursor was 0 before them. */
  lemma ActivatedOnlyAfterCode<K>(code: seq<K>, keys: seq<K>)
    requires |code| > 0
    requires Activated(code, keys)
    ensures |keys| >= |code|
    ensures keys[|keys| - |code|..] == code
    ensures Cursor(code, keys[..|keys| - |code|]) == 0
  {
    var n, m := |keys|, |code|;
    var p, k := keys[..n - 1], keys[n - 1];
    CursorSuffix(code, p);
    assert Cursor(code, p) == m - 1 && k == code[m - 1];
    SplitLast(keys);
    SnocSlices(p, k, m - 1);
    SplitLast(code);
  }

  /** Typing the code from cursor 0 runs activate on its last key. */
  lemma CodeAfterResetActivates<K>(code: seq<K>, pre: seq<K>)
    requires |code| > 0
    requires Cursor(code, pre) == 0
    ensures Activated(code, pre + code)
  {
    var m := |code|;
    CursorExtend(code, pre, m - 1);
    AppendPrefixSnoc(pre, code, m);
    assert code[..m] == code;
    CursorSnoc(code, pre + code[..m - 1], code[m - 1]);
  }

  /**
   * activate runs exactly when the last |code| keys are the code and the
   * cursor was 0 before them, i.e. the code was typed with no deviating key
   * since the last reset.
   */
  lemma ActivatedExactly<K>(code: seq<K>, keys: seq<K>)
    requires |code| > 0
    ensures Activated(code, keys) <==>
              |keys| >= |code|
              && keys[|keys| - |code|..] == code
              && Cursor(code, keys[..|keys| - |code|]) == 0
  {
    if Activated(code, keys) {
      ActivatedOnlyAfterCode(code, keys);
    }
    if |keys| >= |code| && keys[|keys| - |code|..] == code && Cursor(code, keys[..|keys| - |code|]) == 0 {
      var pre := keys[..|keys| - |code|];
      SplitAt(keys, |keys| - |code|);
      CodeAfterResetActivates(code, pre);
    }
  }

  /**
   * A mismatch resets to 0 even when the key would start the code again. For
   * a code that starts with a repeated key which does not occur again later,
   * as the Konami code's ArrowUp ArrowUp does, typing the first key once too
   * often before the code means the code is not recognised.
   */
  lemma {:induction false} RepeatedFirstKeyMissesCode<K>(code: seq<K>)
    requires |code| >= 3 && code[0] == code[1]
    requires forall j :: 2 <= j < |code| ==> code[j] != code[0]
    ensures !Activated(code, [code[0]] + code)
  {
    var up := code[0];
    CursorSnoc(code, [], up);
    assert [] + [up] == [up];
    CursorSnoc(code, [up], up);
    assert [up] + [up] == [up, up];
    CursorSnoc(code, [up, up], up);
    assert [up, up] + [up] == [up, up, up];
    var keys := [up, up, up];
    var i := 2;
    while i < |code| - 1
      invariant 2 <= i <= |code| - 1
      invariant keys == [up] + code[..i]
      invariant Cursor(code, keys) == 0
    {
      CursorSnoc(code, keys, code[i]);
      PrefixSnoc(code, i);
      keys := keys + [code[i]];
      i := i + 1;
    }
    CursorSnoc(code, keys, code[|code| - 1]);
    AppendPrefixSnoc([up], code, |code|);
    assert code[..|code|] == code;
  }

  /** The Konami instance: an extra ArrowUp before the code defeats it. */
  lemma ExtraArrowUpMissesKonami()
    ensures !Activated(Konami, ["ArrowUp"] + Konami)
  {
    RepeatedFirstKeyMissesCode(Konami);
  }

  /** The easter-egg object: the cursor, and the keys seen since the page loaded. */
  class Matcher {
    const sequence: seq<string>
    var current: nat
    ghost var keys: seq<string>

    ghost predicate Valid()
      reads this
    {
      sequence == Konami && current < |sequence| && current == Cursor(sequence, keys)
    }

    constructor Init()
      ensures Valid() && keys == []
    {
      sequence := Konami;
      current := 0;
      keys := [];
    }

    /** The keydown listener; activated tells whether activate was called. */
    method KeyDown(key: string) returns (activated: bool)
      requires Valid()
      modifies this
      ensures Valid()
      ensures keys == old(keys) + [key]
      ensures activated == Activated(sequence, keys)
      ensures current == Step(sequence, old(current), key).cursor
    {
      activated := false;
      if key == sequence[current] {
        current := current + 1;
        if current == |sequence| {
          activated := true;
          current := 0;
        }
      } else {
        current := 0;
      }
      CursorSnoc(sequence, keys, key);
      keys := keys + [key];
    }
  }
}
