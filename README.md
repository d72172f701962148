# Player profile

A model of the `Player` record of `object.h`: a player's name, main creature,
character type, owned items and owned creatures, built by a constructor that
stores its five arguments, and rendered as text by `toString()`.

The rendering is specified by the pure function `Profile.Render`: the header
`"Name: " + name + ", Character Type: " + characterType`, then each item and
then each creature, each preceded by one space (`Profile.Spaced`). The class
`Profile.Player` carries the five fields; its method `ToString` builds the
text in a local string with two loops, as the original appends to an output
string stream, and is proved to return `Render` of the fields. `ToString` has
no `modifies` clause, so — like the C++ `const` member — it leaves every field
as it was, and two calls on the same player return the same text.

`SpacedLength` is an independent count (one space plus the word, per word) and
`Offset(xs, k)` the position where word `k` starts; the lemmas pin down the
length of the rendering, where each item and creature sits inside it, and the
converse: `Spaced(xs)` is the only text with that layout.

## Model

| member | source | states |
|---|---|---|
| Profile.Player.constructor | object.h:14-15 | each of the five arguments is stored unchanged in the field of the same name |
| Profile.Player.ToString | object.h:17-31 | the two appending loops produce exactly `Render` of name, character type, items and creatures; nothing is modified |
| Profile.MainCreatureIgnored | object.h:20-29 | two players that agree on every field except `mainCreature` render to the same text |
| Profile.Header | object.h:20 | the header is 24 label characters plus name and character type: `"Name: "`, the name, `", Character Type: "`, the character type, at those positions |
| Profile.RenderStartsWithHeader | object.h:20 | every rendering begins with `"Name: " + name + ", Character Type: " + characterType` |
| Profile.RenderEmpty | object.h:20-30 | with no items and no creatures the rendering is exactly the header, with no trailing space |
| Profile.RenderLength | object.h:20-29 | the rendering has length 24 plus the lengths of name and character type plus, per item and per creature, one plus its length |
| Profile.SpacedHasLength | object.h:22-29 | each loop adds one space plus the element's length per element |
| Profile.SpacedLengthAppend | object.h:22-29 | the length count of two lists concatenated is the sum of their counts |
| Profile.OffsetStep | object.h:22-29 | element k+1 starts one space plus element k's length after element k, within the whole |
| Profile.SpacedAppend | object.h:22-29 | emitting a concatenated list is emitting the first list then the second |
| Profile.SpacedSnoc | object.h:24 | one loop iteration appends one space and the element at the end of the text built so far |
| Profile.SpacedSingle | object.h:24 | a single element is emitted as one space followed by the element |
| Profile.SpacedSplit | object.h:22-25 | element k is emitted after the elements before it and before the elements after it, preceded by one space |
| Profile.SpacedAt | object.h:22-25 | element k sits at its offset, right after one space |
| Profile.SpacedCharacterized | object.h:22-25 | a text equals the emitted list if and only if it has the counted length and every element at its offset after one space |
| Profile.LaysOutInit | object.h:22-25 | a layout of all elements, cut at the last one's offset, is a layout of all but the last |
| Profile.LaidOutIsSpaced | object.h:22-25 | any text with the layout of a list is the emitted list |
| Profile.RenderOfConcat | object.h:22-29 | the rendering depends only on items followed by creatures |
| Profile.MoveLastItemToCreatures | object.h:22-29 | moving the last item to the front of the creatures leaves the rendering unchanged |
| Profile.ItemAt | object.h:20-25 | item k appears after the header and the earlier items, right after one space |
| Profile.CreatureAt | object.h:20-29 | creature k appears after the header, all items and the earlier creatures, right after one space |
| Profile.RenderTwoItemsOneCreature | object.h:17-31 | any player with two items and one creature renders as the header followed by the three elements in order, each after one space |
| Profile.RenderAlice | object.h:17-31 | name Alice, type Mage, items Sword and Shield, creature Wolf render as `Name: Alice, Character Type: Mage Sword Shield Wolf` |
| Profile.RenderPotion | object.h:17-31 | name Bob, type Warrior, item Potion and no creatures render as `Name: Bob, Character Type: Warrior Potion` |

## Left out

- The output string stream is modelled as concatenation of character sequences; buffering and locale behaviour are library internals.
- C++ copy and ownership of `std::string` and `std::vector` in the constructor's member initialisers: Dafny's value sequences stand in for them.
- Character encodings: strings are sequences of characters, with no multibyte handling.
