/**
 * A player's in-game profile: five fields and a text rendering of them.
 *
 * The rendering is specified by the pure function `Render`; the class method
 * `Player.ToString` builds the same text step by step, appending to a local
 * buffer the way the original appends to an output string stream.
 */
module Profile {

  /** The fixed text before the name. */
  const NameLabel: string := "Name: "
  /** The fixed text between the name and the character type. */
  const TypeLabel: string := ", Character Type: "

  /** The opening of every rendering. */
  function Header(name: string, characterType: string): (h: string)
    ensures |h| == 24 + |name| + |characterType|
    ensures h[..6] == NameLabel && h[6..6 + |name|] == name
    ensures h[6 + |name|..24 + |name|] == TypeLabel && h[24 + |name|..] == characterType
  {
    NameLabel + name + TypeLabel + characterType
  }

  /** Each word of `xs`, in order, each preceded by one space. */
  function Spaced(xs: seq<string>): string
  {
    if xs == [] then [] else Spaced(xs[..|xs| - 1]) + " " + xs[|xs| - 1]
  }

  /** The number of characters `Spaced(xs)` takes: one space plus the word, per word. */
  function SpacedLength(xs: seq<string>): nat
  {
    if xs == [] then 0 else 1 + |xs[0]| + SpacedLength(xs[1..])
  }

  /** The text a player with these fields renders to; the main creature takes no part. */
  function Render(name: string, characterType: string, items: seq<string>, creatures: seq<string>): string
  {
    Header(name, characterType) + Spaced(items) + Spaced(creatures)
  }

  /** Where the word `xs[k]` starts inside `Spaced(xs)` (the position of its leading space). */
  function Offset(xs: seq<string>, k: nat): nat
    requires k <= |xs|
  {
    SpacedLength(xs[..k])
  }

  // ---------------------------------------------------------------------------
  // Properties of Spaced

  /** The count of a concatenation is the sum of the counts. */
  lemma {:induction false} SpacedLengthAppend(xs: seq<string>, ys: seq<string>)
    ensures SpacedLength(xs + ys) == SpacedLength(xs) + SpacedLength(ys)
  {
    if xs == [] {
      assert xs + ys == ys;
    } else {
      assert (xs + ys)[1..] == xs[1..] + ys;
      SpacedLengthAppend(xs[1..], ys);
    }
  }

  /** Each word moves the next offset on by one space plus the word's length, staying within the whole. */
  lemma OffsetStep(xs: seq<string>, k: nat)
    requires k < |xs|
    ensures Offset(xs, k + 1) == Offset(xs, k) + 1 + |xs[k]|
    ensures Offset(xs, k + 1) <= SpacedLength(xs)
  {
    assert [xs[k]][1..] == [];
    SpacedLengthAppend(xs[..k], [xs[k]]);
    assert xs[..k] + [xs[k]] == xs[..k + 1];
    SpacedLengthAppend(xs[..k + 1], xs[k + 1..]);
    assert xs[..k + 1] + xs[k + 1..] == xs;
  }

  /** `Spaced` takes exactly one space plus the word's own length per word. */
  lemma {:induction false} SpacedHasLength(xs: seq<string>)
    ensures |Spaced(xs)| == SpacedLength(xs)
  {
    if xs != [] {
      var init := xs[..|xs| - 1];
      SpacedHasLength(init);
      SpacedLengthAppend(init, [xs[|xs| - 1]]);
      assert init + [xs[|xs| - 1]] == xs;
    }
  }

  /** Rendering a concatenation is concatenating the renderings. */
  lemma {:induction false} SpacedAppend(xs: seq<string>, ys: seq<string>)
    ensures Spaced(xs + ys) == Spaced(xs) + Spaced(ys)
  {
    if ys == [] {
      assert xs + ys == xs;
    } else {
      var init := ys[..|ys| - 1];
      var last := ys[|ys| - 1];
      assert (xs + ys)[..|xs + ys| - 1] == xs + init;
      assert (xs + ys)[|xs + ys| - 1] == last;
      SpacedAppend(xs, init);
    }
  }

  /** Adding a word at the end adds one space and the word at the end of the text. */
  lemma SpacedSnoc(xs: seq<string>, x: string)
    ensures Spaced(xs + [x]) == Spaced(xs) + " " + x
  {
    assert (xs + [x])[..|xs|] == xs;
  }

  /** A single word renders as one space followed by the word. */
  lemma SpacedSingle(x: string)
    ensures Spaced([x]) == " " + x
  {
    assert [x][..0] == [];
  }

  /** A list is the words before position k, the word at k, and the words after it. */
  lemma SplitAround(xs: seq<string>, k: nat)
    requires k < |xs|
    ensures xs == (xs[..k] + [xs[k]]) + xs[k + 1..]
  {
  }

  /**
   * Every word appears in its place: the text before it is the rendering of the
   * words before it, then one space, the word itself, and the rendering of the
   * words after it.
   */
  lemma SpacedSplit(xs: seq<string>, k: nat)
    requires k < |xs|
    ensures Spaced(xs) == Spaced(xs[..k]) + " " + xs[k] + Spaced(xs[k + 1..])
  {
    var pre, x, post := xs[..k], xs[k], xs[k + 1..];
    calc {
      Spaced(xs);
      { SplitAround(xs, k); }
      Spaced((pre + [x]) + post);
      { SpacedAppend(pre + [x], post); }
      Spaced(pre + [x]) + Spaced(post);
      { SpacedSnoc(pre, x); }
      Spaced(pre) + " " + x + Spaced(post);
    }
  }

  /** Each word sits at its offset, right after one space. */
  lemma SpacedAt(xs: seq<string>, k: nat)
    requires k < |xs|
    ensures Offset(xs, k) + 1 + |xs[k]| <= |Spaced(xs)|
    ensures Spaced(xs)[Offset(xs, k)] == ' '
    ensures Spaced(xs)[Offset(xs, k) + 1..Offset(xs, k) + 1 + |xs[k]|] == xs[k]
  {
    SpacedSplit(xs, k);
    SpacedHasLength(xs[..k]);
    var pre := Spaced(xs[..k]);
    var s := pre + " " + xs[k] + Spaced(xs[k + 1..]);
    assert s[|pre|] == ' ';
    assert s[|pre| + 1..|pre| + 1 + |xs[k]|] == xs[k];
  }

  /** The words of `xs`, each at its offset after one space, filling exactly the right length. */
  ghost predicate LaysOut(s: string, xs: seq<string>)
  {
    |s| == SpacedLength(xs) &&
    forall k :: 0 <= k < |xs| ==>
      Offset(xs, k) + 1 + |xs[k]| <= |s| &&
      s[Offset(xs, k)] == ' ' &&
      s[Offset(xs, k) + 1..Offset(xs, k) + 1 + |xs[k]|] == xs[k]
  }

  /** `Spaced(xs)` is the one and only text that lays the words out this way. */
  lemma SpacedCharacterized(s: string, xs: seq<string>)
    ensures s == Spaced(xs) <==> LaysOut(s, xs)
  {
    if s == Spaced(xs) {
      SpacedHasLength(xs);
      forall k | 0 <= k < |xs|
        ensures Offset(xs, k) + 1 + |xs[k]| <= |s|
        ensures s[Offset(xs, k)] == ' '
        ensures s[Offset(xs, k) + 1..Offset(xs, k) + 1 + |xs[k]|] == xs[k]
      {
        SpacedAt(xs, k);
      }
    }
    if LaysOut(s, xs) {
      LaidOutIsSpaced(s, xs);
    }
  }

  /** A layout of all the words holds, cut short, for all the words but the last. */
  lemma LaysOutInit(s: string, xs: seq<string>)
    requires LaysOut(s, xs) && xs != []
    ensures Offset(xs, |xs| - 1) <= |s|
    ensures LaysOut(s[..Offset(xs, |xs| - 1)], xs[..|xs| - 1])
  {
    var n := |xs| - 1;
    var init := xs[..n];
    var m := Offset(xs, n);
    OffsetStep(xs, n);
    assert xs[..n + 1] == xs;
    var pre := s[..m];
    forall k | 0 <= k < |init|
      ensures Offset(init, k) + 1 + |init[k]| <= |pre|
      ensures pre[Offset(init, k)] == ' '
      ensures pre[Offset(init, k) + 1..Offset(init, k) + 1 + |init[k]|] == init[k]
    {
      WordInPrefix(s, xs, k);
    }
  }

  /** One instance of a layout: word k at its offset. */
  lemma LaysOutAt(s: string, xs: seq<string>, k: nat)
    requires LaysOut(s, xs) && k < |xs|
    ensures Offset(xs, k) + 1 + |xs[k]| <= |s|
    ensures s[Offset(xs, k)] == ' '
    ensures s[Offset(xs, k) + 1..Offset(xs, k) + 1 + |xs[k]|] == xs[k]
  {
  }

  /** One word of a layout, seen inside the prefix that ends where the last word starts. */
  lemma WordInPrefix(s: string, xs: seq<string>, k: nat)
    requires LaysOut(s, xs) && k < |xs| - 1
    ensures var init, m := xs[..|xs| - 1], Offset(xs, |xs| - 1);
      m <= |s| &&
      Offset(init, k) + 1 + |init[k]| <= m &&
      s[..m][Offset(init, k)] == ' ' &&
      s[..m][Offset(init, k) + 1..Offset(init, k) + 1 + |init[k]|] == init[k]
  {
    var n := |xs| - 1;
    var init := xs[..n];
    var m := Offset(xs, n);
    OffsetStep(xs, n);
    assert xs[..n + 1] == xs;
    assert init[..k] == xs[..k];
    assert init[k] == xs[k];
    var at := Offset(xs, k);
    assert Offset(init, k) == at;
    OffsetStep(init, k);
    var end := at + 1 + |xs[k]|;
    assert end <= m;
    LaysOutAt(s, xs, k);
    assert s[..m][at] == s[at];
    SliceOfPrefix(s, m, at + 1, end);
  }

  /** A slice that ends inside a prefix reads the same in the prefix as in the whole. */
  lemma SliceOfPrefix(s: string, m: nat, lo: nat, hi: nat)
    requires lo <= hi <= m <= |s|
    ensures s[..m][lo..hi] == s[lo..hi]
  {
    assert forall i :: 0 <= i < hi - lo ==> s[..m][lo..hi][i] == s[lo + i] == s[lo..hi][i];
  }

  /** The converse half of `SpacedCharacterized`, by induction on the words, last word first. */
  lemma {:induction false} LaidOutIsSpaced(s: string, xs: seq<string>)
    requires LaysOut(s, xs)
    ensures s == Spaced(xs)
  {
    if xs == [] {
      assert |s| == 0;
    } else {
      var n := |xs| - 1;
      var m := Offset(xs, n);
      LaysOutInit(s, xs);
      LaidOutIsSpaced(s[..m], xs[..n]);
      OffsetStep(xs, n);
      assert xs[..n + 1] == xs;
      assert s[m] == ' ';
      assert s[m + 1..] == xs[n];
      assert s == s[..m] + [s[m]] + s[m + 1..];
    }
  }

  // ---------------------------------------------------------------------------
  // Properties of Render

  /** The rendering always opens with the header. */
  lemma RenderStartsWithHeader(name: string, characterType: string, items: seq<string>, creatures: seq<string>)
    ensures |Header(name, characterType)| <= |Render(name, characterType, items, creatures)|
    ensures Render(name, characterType, items, creatures)[..|Header(name, characterType)|]
         == NameLabel + name + TypeLabel + characterType
  {
    var h := Header(name, characterType);
    assert Render(name, characterType, items, creatures) == h + (Spaced(items) + Spaced(creatures));
  }

  /** With no items and no creatures the rendering is the header alone, without a trailing space. */
  lemma RenderEmpty(name: string, characterType: string)
    ensures Render(name, characterType, [], []) == "Name: " + name + ", Character Type: " + characterType
  {
  }

  /** The exact length: 24 label characters, the two fields, and one space plus the word per element. */
  lemma RenderLength(name: string, characterType: string, items: seq<string>, creatures: seq<string>)
    ensures |Render(name, characterType, items, creatures)|
         == 24 + |name| + |characterType| + SpacedLength(items) + SpacedLength(creatures)
  {
    SpacedHasLength(items);
    SpacedHasLength(creatures);
  }

  /** The rendering only sees `items + creatures`: both loops emit the same form. */
  lemma RenderOfConcat(name: string, characterType: string, items: seq<string>, creatures: seq<string>)
    ensures Render(name, characterType, items, creatures)
         == Header(name, characterType) + Spaced(items + creatures)
  {
    SpacedAppend(items, creatures);
  }

  /** Moving the last item to the front of the creatures leaves the rendering unchanged. */
  lemma MoveLastItemToCreatures(name: string, characterType: string, items: seq<string>, creatures: seq<string>)
    requires items != []
    ensures Render(name, characterType, items, creatures)
         == Render(name, characterType, items[..|items| - 1], [items[|items| - 1]] + creatures)
  {
    var init := items[..|items| - 1];
    var moved := [items[|items| - 1]] + creatures;
    assert items + creatures == init + moved;
    RenderOfConcat(name, characterType, items, creatures);
    RenderOfConcat(name, characterType, init, moved);
  }

  /** Item `k` appears after the header and the earlier items, right after one space. */
  lemma ItemAt(name: string, characterType: string, items: seq<string>, creatures: seq<string>, k: nat)
    requires k < |items|
    ensures var r, at := Render(name, characterType, items, creatures), 24 + |name| + |characterType| + Offset(items, k);
      at + 1 + |items[k]| <= |r| && r[at] == ' ' && r[at + 1..at + 1 + |items[k]|] == items[k]
  {
    var h := Header(name, characterType);
    var r := Render(name, characterType, items, creatures);
    var at := 24 + |name| + |characterType| + Offset(items, k);
    SpacedAt(items, k);
    assert r == h + Spaced(items) + Spaced(creatures);
    assert r[at] == Spaced(items)[Offset(items, k)];
    assert r[at + 1..at + 1 + |items[k]|]
        == Spaced(items)[Offset(items, k) + 1..Offset(items, k) + 1 + |items[k]|];
  }

  /** Creature `k` appears after the header, all the items and the earlier creatures, right after one space. */
  lemma CreatureAt(name: string, characterType: string, items: seq<string>, creatures: seq<string>, k: nat)
    requires k < |creatures|
    ensures var r, at := Render(name, characterType, items, creatures),
                         24 + |name| + |characterType| + SpacedLength(items) + Offset(creatures, k);
      at + 1 + |creatures[k]| <= |r| && r[at] == ' ' && r[at + 1..at + 1 + |creatures[k]|] == creatures[k]
  {
    var h := Header(name, characterType);
    var r := Render(name, characterType, items, creatures);
    var base := 24 + |name| + |characterType| + SpacedLength(items);
    var at := base + Offset(creatures, k);
    SpacedAt(creatures, k);
    SpacedHasLength(items);
    assert r == (h + Spaced(items)) + Spaced(creatures);
    assert r[at] == Spaced(creatures)[Offset(creatures, k)];
    assert r[at + 1..at + 1 + |creatures[k]|]
        == Spaced(creatures)[Offset(creatures, k) + 1..Offset(creatures, k) + 1 + |creatures[k]|];
  }

  /** Two items and one creature render as the header and three space-led words. */
  lemma RenderTwoItemsOneCreature(name: string, characterType: string, a: string, b: string, c: string)
    ensures Render(name, characterType, [a, b], [c])
         == NameLabel + name + TypeLabel + characterType + " " + a + " " + b + " " + c
  {
    SpacedSnoc([a], b);
    assert [a] + [b] == [a, b];
    SpacedSingle(a);
    SpacedSingle(c);
  }

  /** The worked example: a mage with two items and one creature. */
  lemma RenderAlice()
    ensures Render("Alice", "Mage", ["Sword", "Shield"], ["Wolf"])
         == "Name: Alice, Character Type: Mage Sword Shield Wolf"
  {
    RenderTwoItemsOneCreature("Alice", "Mage", "Sword", "Shield", "Wolf");
    var t := NameLabel + "Alice";
    assert t == "Name: Alice";
    t := t + TypeLabel;
    assert t == "Name: Alice, Character Type: ";
    t := t + "Mage" + " " + "Sword";
    assert t == "Name: Alice, Character Type: Mage Sword";
    t := t + " " + "Shield" + " " + "Wolf";
    assert t == "Name: Alice, Character Type: Mage Sword Shield Wolf";
  }

  /** The worked example with a single item and no creatures. */
  lemma RenderPotion()
    ensures Render("Bob", "Warrior", ["Potion"], []) == "Name: Bob, Character Type: Warrior Potion"
  {
    SpacedSingle("Potion");
    assert Header("Bob", "Warrior") == "Name: Bob, Character Type: Warrior";
    assert "Name: Bob, Character Type: Warrior" + " Potion" == "Name: Bob, Character Type: Warrior Potion";
  }

  // ---------------------------------------------------------------------------
  // The record

  class Player {
    var name: string
    var mainCreature: string
    var characterType: string
    var items: seq<string>
    var creatures: seq<string>

    /** Stores each argument, unchanged, in the field of the same name. */
    constructor (name: string, mainCreature: string, characterType: string,
                 items: seq<string>, creatures: seq<string>)
      ensures this.name == name && this.mainCreature == mainCreature
      ensures this.characterType == characterType
      ensures this.items == items && this.creatures == creatures
    {
      this.name := name;
      this.mainCreature := mainCreature;
      this.characterType := characterType;
      this.items := items;
      this.creatures := creatures;
    }

    /**
     * Renders the player: the header, then every item and every creature,
     * each after one space. It modifies nothing, so the fields are the same
     * afterwards and a second call returns the same text.
     */
    method ToString() returns (s: string)
      ensures s == Render(name, characterType, items, creatures)
    {
      s := NameLabel + name + TypeLabel + characterType;
      var i := 0;
      while i < |items|
        invariant 0 <= i <= |items|
        invariant s == Header(name, characterType) + Spaced(items[..i])
      {
        assert items[..i + 1][..i] == items[..i];
        s := s + " " + items[i];
        i := i + 1;
      }
      assert items[..i] == items;
      var j := 0;
      while j < |creatures|
        invariant 0 <= j <= |creatures|
        invariant s == Header(name, characterType) + Spaced(items) + Spaced(creatures[..j])
      {
        assert creatures[..j + 1][..j] == creatures[..j];
        s := s + " " + creatures[j];
        j := j + 1;
      }
      assert creatures[..j] == creatures;
    }
  }

  /** Two players that differ only in their main creature render identically. */
  method MainCreatureIgnored(p: Player, q: Player) returns (sp: string, sq: string)
    requires p.name == q.name && p.characterType == q.characterType
    requires p.items == q.items && p.creatures == q.creatures
    ensures sp == sq
  {
    sp := p.ToString();
    sq := q.ToString();
  }
}
