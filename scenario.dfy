/**
 * A client of the list. The usage at the end of linked-list.rb builds a list
 * from "bear" and appends "cat" and "dog". Here that list is also rendered
 * and measured, and extra steps that the file does not run are added: a
 * removal, an insertion and the removal of an absent value.
 */
module Scenario {
  import LinkedLists
  import ListSpec

  /** A string value's text: the string itself. */
  function Text(s: string): string
  {
    s
  }

  /** The rendering of a list of two strings. */
  lemma RenderTwo(a: string, b: string)
    ensures ListSpec.Render([a, b], Text) == a + ", " + b
  {
    ListSpec.RenderPrepend([b], a, Text);
    assert [a] + [b] == [a, b];
    assert ListSpec.Shown([b], Text) == [b];
  }

  /** The rendering of a list of three strings, unfolded one separator at a time. */
  lemma RenderThree(a: string, b: string, c: string)
    ensures ListSpec.Render([a, b, c], Text) == a + ", " + b + ", " + c
  {
    ListSpec.RenderPrepend([b, c], a, Text);
    assert [a] + [b, c] == [a, b, c];
    RenderTwo(b, c);
    assert a + ", " + (b + ", " + c) == a + ", " + b + ", " + c;
  }

  /** The rendering of "bear", "dog". */
  lemma RenderBearDog()
    ensures ListSpec.Render(["bear", "dog"], Text) == "bear, dog"
  {
    RenderTwo("bear", "dog");
  }

  /** The rendering of "bear", "fox", "dog". */
  lemma RenderBearFoxDog()
    ensures ListSpec.Render(["bear", "fox", "dog"], Text) == "bear, fox, dog"
  {
    RenderThree("bear", "fox", "dog");
  }

  /** Removing "cat", which the head does not hold, takes out the middle value. */
  lemma RemoveCat()
    ensures ListSpec.Remove(["bear", "cat", "dog"], "cat") == ["bear", "dog"]
  {
    var s := ["bear", "cat", "dog"];
    assert s[0] != "cat" by { assert "bear"[0] != "cat"[0]; }
    assert s[1..] == ["cat", "dog"] && s[1..][1..] == ["dog"];
    assert ListSpec.RemoveFirst(s, "cat") == [s[0]] + ListSpec.RemoveFirst(s[1..], "cat");
  }

  /** Inserting "fox" after the head "bear". */
  lemma InsertFox()
    ensures ListSpec.InsertAfter(["bear", "dog"], "bear", "fox") == ["bear", "fox", "dog"]
  {
  }

  /** Removing "zebra", which no node holds, changes nothing. */
  lemma RemoveZebra()
    ensures ListSpec.Remove(["bear", "fox", "dog"], "zebra") == ["bear", "fox", "dog"]
  {
    var s := ["bear", "fox", "dog"];
    assert "zebra" !in s by {
      assert "zebra"[0] != "bear"[0] && "zebra"[0] != "fox"[0] && "zebra"[0] != "dog"[0];
    }
    ListSpec.RemoveHeadMiss(s, "zebra");
  }

  /** Lines 139-141 of linked-list.rb: "bear", then "cat" and "dog" appended. */
  method Build() returns (list: LinkedLists.LinkedList<string>)
    ensures list.Valid() && fresh(list.Repr)
    ensures list.Contents == ["bear", "cat", "dog"]
  {
    list := new LinkedLists.LinkedList("bear");
    var chained := list.Append("cat");
    chained := list.Append("dog");
  }

  /** The built list renders as "bear, cat, dog" and has length 3 (the file itself stops after building it). */
  method Demo() returns (rendered: string, count: nat)
    ensures rendered == "bear, cat, dog" && count == 3
  {
    var list := Build();
    RenderThree("bear", "cat", "dog");
    rendered := list.ToString(Text);
    count := list.Length();
  }

  /** Removing "cat" from the built list leaves "bear" and "dog". */
  method RemoveStep(list: LinkedLists.LinkedList<string>)
    requires list.Valid() && list.Contents == ["bear", "cat", "dog"]
    modifies list.Repr
    ensures list.Valid() && list.Repr == old(list.Repr)
    ensures list.Contents == ["bear", "dog"]
  {
    RemoveCat();
    assert "bear" != "cat" by { assert "bear"[0] != "cat"[0]; }
    var chained := list.Remove("cat");
  }

  /** Inserting "fox" after "bear" puts it between "bear" and "dog". */
  method InsertStep(list: LinkedLists.LinkedList<string>)
    requires list.Valid() && list.Contents == ["bear", "dog"]
    modifies list.Repr
    ensures list.Valid() && fresh(list.Repr - old(list.Repr))
    ensures list.Contents == ["bear", "fox", "dog"]
  {
    InsertFox();
    var found := list.InsertAfter("bear", "fox");
  }

  /** Removing the absent "zebra" changes nothing. */
  method KeepStep(list: LinkedLists.LinkedList<string>)
    requires list.Valid() && list.Contents == ["bear", "fox", "dog"]
    modifies list.Repr
    ensures list.Valid() && list.Repr == old(list.Repr)
    ensures list.Contents == ["bear", "fox", "dog"]
  {
    RemoveZebra();
    assert "bear" != "zebra" by { assert "bear"[0] != "zebra"[0]; }
    var chained := list.Remove("zebra");
  }

  /**
   * Extra steps on the built list: removing "cat" renders "bear, dog", inserting "fox"
   * after "bear" renders "bear, fox, dog", and removing the absent "zebra"
   * leaves that rendering.
   */
  method FollowUp() returns (removed: string, inserted: string, kept: string)
    ensures removed == "bear, dog"
    ensures inserted == "bear, fox, dog"
    ensures kept == "bear, fox, dog"
  {
    var list := Build();
    RenderBearDog();
    RenderBearFoxDog();
    RemoveStep(list);
    removed := list.ToString(Text);
    InsertStep(list);
    inserted := list.ToString(Text);
    KeepStep(list);
    kept := list.ToString(Text);
  }
}
