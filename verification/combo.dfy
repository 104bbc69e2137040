/**
 * Combo detection: the frog jumps when all four jump buttons have been
 * pressed within the tolerance of each other.  The last press of each button
 * is recorded; a complete combo clears the record.
 */
module Combo {
  import opened Scene
  import opened Entities

  function Min(a: real, b: real): real { if a <= b then a else b }
  function Max(a: real, b: real): real { if a <= b then b else a }

  /** The earliest recorded press of a jump button. */
  function Earliest(m: map<Button, real>): real
    requires JumpButtons <= m.Keys
  {
    Min(Min(m[Cross], m[Circle]), Min(m[Square], m[Triangle]))
  }

  /** The latest recorded press of a jump button. */
  function Latest(m: map<Button, real>): real
    requires JumpButtons <= m.Keys
  {
    Max(Max(m[Cross], m[Circle]), Max(m[Square], m[Triangle]))
  }

  /**
   * With only jump buttons recorded, Earliest and Latest are the least and
   * the greatest of the recorded timestamps, as `handle_in_game` computes them
   * over all values of the record.
   */
  lemma EarliestLatestAreExtremes(m: map<Button, real>)
    requires m.Keys == JumpButtons
    ensures Earliest(m) in m.Values && Latest(m) in m.Values
    ensures forall v :: v in m.Values ==> Earliest(m) <= v <= Latest(m)
  {
    assert m[Cross] in m.Values && m[Circle] in m.Values;
    assert m[Square] in m.Values && m[Triangle] in m.Values;
    forall v | v in m.Values
      ensures Earliest(m) <= v <= Latest(m)
    {
      var b :| b in m && m[b] == v;
    }
  }

  /** Reference definition: every jump button is recorded and no two records are as far apart as the tolerance. */
  ghost predicate AllPressedTogether(m: map<Button, real>) {
    JumpButtons <= m.Keys &&
    forall a, b :: a in JumpButtons && b in JumpButtons ==> m[a] - m[b] < ComboTolerance
  }

  lemma SpreadBelowToleranceIffTogether(m: map<Button, real>)
    requires JumpButtons <= m.Keys
    ensures Latest(m) - Earliest(m) < ComboTolerance <==> AllPressedTogether(m)
  {
    var lo :| lo in JumpButtons && m[lo] == Earliest(m);
    var hi :| hi in JumpButtons && m[hi] == Latest(m);
    if AllPressedTogether(m) {
      assert m[hi] - m[lo] < ComboTolerance;
    }
  }

  /**
   * One button press.  A button outside the combo changes nothing.  A combo
   * button records `now`; the press completes the combo, and the record is
   * cleared, exactly when all four buttons are then recorded within the
   * tolerance of each other; otherwise the new timestamp stays recorded.
   */
  function RecordPress(buttons: map<Button, real>, button: Button, now: real): (r: (map<Button, real>, bool))
    requires buttons.Keys <= JumpButtons
    ensures r.0.Keys <= JumpButtons
    ensures button !in JumpButtons ==> r == (buttons, false)
    ensures button in JumpButtons ==> (r.1 <==> AllPressedTogether(buttons[button := now]))
    ensures r.1 ==> r.0 == map[]
    ensures button in JumpButtons && !r.1 ==> r.0 == buttons[button := now]
  {
    if button !in JumpButtons then (buttons, false)
    else
      var m := buttons[button := now];
      if JumpButtons <= m.Keys then
        SpreadBelowToleranceIffTogether(m);
        if Latest(m) - Earliest(m) < ComboTolerance then (map[], true) else (m, false)
      else (m, false)
  }

  /** Presses in order from a record; the new record and how many jumps they produced. */
  function PressAll(buttons: map<Button, real>, presses: seq<(Button, real)>): (map<Button, real>, nat)
    requires buttons.Keys <= JumpButtons
    decreases |presses|
  {
    if presses == [] then (buttons, 0)
    else
      var (m, jump) := RecordPress(buttons, presses[0].0, presses[0].1);
      var (m', n) := PressAll(m, presses[1..]);
      (m', n + if jump then 1 else 0)
  }

  /** Four presses of the four different jump buttons, in some order. */
  predicate FullCombo(presses: seq<(Button, real)>) {
    && |presses| == 4
    && (forall i :: 0 <= i < 4 ==> presses[i].0 in JumpButtons)
    && (forall i, j :: 0 <= i < j < 4 ==> presses[i].0 != presses[j].0)
  }

  lemma FullComboCoversJumpButtons(presses: seq<(Button, real)>)
    requires FullCombo(presses)
    ensures forall b :: b in JumpButtons ==> exists i :: 0 <= i < 4 && presses[i].0 == b
  {
    var s := {presses[0].0, presses[1].0, presses[2].0, presses[3].0};
    assert s == JumpButtons;
  }

  /**
   * Pressing the four jump buttons in any order from an empty record, all
   * within the tolerance of each other, makes the frog jump exactly once and
   * leaves the record empty; spread wider, it makes no jump and leaves all
   * four timestamps recorded.
   */
  lemma {:induction false} ComboFromEmpty(presses: seq<(Button, real)>)
    requires FullCombo(presses)
    ensures (forall i, j :: 0 <= i < 4 && 0 <= j < 4 ==> presses[i].1 - presses[j].1 < ComboTolerance) ==>
              PressAll(map[], presses) == (map[], 1)
    ensures !(forall i, j :: 0 <= i < 4 && 0 <= j < 4 ==> presses[i].1 - presses[j].1 < ComboTolerance) ==>
              PressAll(map[], presses) ==
              (map[presses[0].0 := presses[0].1, presses[1].0 := presses[1].1,
                   presses[2].0 := presses[2].1, presses[3].0 := presses[3].1], 0)
  {
    var m1, m2, m3 := FirstThreePresses(presses);
    var m4 := m3[presses[3].0 := presses[3].1];
    var together := forall i, j :: 0 <= i < 4 && 0 <= j < 4 ==> presses[i].1 - presses[j].1 < ComboTolerance;
    LastPressDecides(presses, m3);
    var last := RecordPress(m3, presses[3].0, presses[3].1);
    var n := if together then 1 else 0;
    assert PressAll(m3, presses[3..]) == (last.0, n) by {
      assert presses[3..][1..] == [];
    }
    assert PressAll(m2, presses[2..]) == (last.0, n) by {
      assert presses[2..][1..] == presses[3..];
    }
    assert PressAll(m1, presses[1..]) == (last.0, n) by {
      assert presses[1..][1..] == presses[2..];
    }
  }

  /** The first three presses of a full combo only record their timestamps. */
  lemma FirstThreePresses(presses: seq<(Button, real)>)
    returns (m1: map<Button, real>, m2: map<Button, real>, m3: map<Button, real>)
    requires FullCombo(presses)
    ensures m1 == map[presses[0].0 := presses[0].1] && RecordPress(map[], presses[0].0, presses[0].1) == (m1, false)
    ensures m2 == m1[presses[1].0 := presses[1].1] && RecordPress(m1, presses[1].0, presses[1].1) == (m2, false)
    ensures m3 == m2[presses[2].0 := presses[2].1] && RecordPress(m2, presses[2].0, presses[2].1) == (m3, false)
    ensures m3.Keys + {presses[3].0} == JumpButtons && presses[3].0 !in m3
  {
    FullComboCoversJumpButtons(presses);
    var b0, b1, b2, b3 := presses[0].0, presses[1].0, presses[2].0, presses[3].0;
    m1 := map[b0 := presses[0].1];
    m2 := m1[b1 := presses[1].1];
    m3 := m2[b2 := presses[2].1];
    assert b3 !in m3.Keys && b3 in JumpButtons;
    assert !(JumpButtons <= m1.Keys) && !(JumpButtons <= m2.Keys) && !(JumpButtons <= m3.Keys);
  }

  /** The fourth press completes the record; the combo fires iff the four presses lie within the tolerance. */
  lemma LastPressDecides(presses: seq<(Button, real)>, m3: map<Button, real>)
    requires FullCombo(presses)
    requires m3 == map[presses[0].0 := presses[0].1, presses[1].0 := presses[1].1, presses[2].0 := presses[2].1]
    requires m3.Keys + {presses[3].0} == JumpButtons
    ensures var m4 := m3[presses[3].0 := presses[3].1];
            RecordPress(m3, presses[3].0, presses[3].1) ==
            if (forall i, j :: 0 <= i < 4 && 0 <= j < 4 ==> presses[i].1 - presses[j].1 < ComboTolerance)
            then (map[], true) else (m4, false)
  {
    var m4 := m3[presses[3].0 := presses[3].1];
    assert forall i | 0 <= i < 4 :: m4[presses[i].0] == presses[i].1;
    TogetherIffPressesClose(presses, m4);
  }

  /** For a record of a full combo, being pressed together is a condition on the four presses. */
  lemma TogetherIffPressesClose(presses: seq<(Button, real)>, m: map<Button, real>)
    requires FullCombo(presses)
    requires forall i | 0 <= i < 4 :: presses[i].0 in m && m[presses[i].0] == presses[i].1
    ensures AllPressedTogether(m) <==>
            forall i, j :: 0 <= i < 4 && 0 <= j < 4 ==> presses[i].1 - presses[j].1 < ComboTolerance
  {
    FullComboCoversJumpButtons(presses);
    if forall i, j :: 0 <= i < 4 && 0 <= j < 4 ==> presses[i].1 - presses[j].1 < ComboTolerance {
      forall a, b | a in JumpButtons && b in JumpButtons
        ensures m[a] - m[b] < ComboTolerance
      {
        var i :| 0 <= i < 4 && presses[i].0 == a;
        var j :| 0 <= j < 4 && presses[j].0 == b;
      }
    }
  }
}
