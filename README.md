# Spell checker trie

A Dafny model of the dictionary trie of the `SpellChecker` class. The
dictionary is a prefix tree. Each `Node` has a fixed array of 26 child slots,
one per letter 'a'..'z', and an `isWord` flag. The tree has one `root` node,
which stands for the empty prefix. `add(word)` walks a `current` pointer down
from the root. At each character it computes the slot `c - 'a'`, fills an
empty slot with a fresh node, and descends. When the walk ends it marks the
node it stopped at as a word. The constructor starts from a fresh root and
adds the lower-cased form of every entry of the word list, in order.

The model keeps the source's form. It has two classes:

- `Node` has a constant `children: array<Node?>` and a mutable `isWord`.
- `SpellChecker` has `root` and a ghost abstraction made of three parts:
  - `Repr` is the set of objects it owns.
  - `Prefix` maps each prefix present in the trie to the node that stands
    for it.
  - `Words` is the set of stored words.

`Valid()` ties the heap to this abstraction:

- the root stands for "";
- the prefixes present are lower-case and closed under taking prefixes;
- no two prefixes share a node or a children array, and every children
  array has 26 slots;
- slot `i` of the node for `p` holds the node for `p + [Letter(i)]`, or null
  when that prefix is absent;
- a node's flag is set exactly when its prefix is a stored word.

`Follow` is the pointer walk from a node along a string. `Stored(s)` says
that walking `s` from the root reaches a word node. `StoredIsWords` proves
that `Stored` is exactly membership in `Words`. So `Add`'s effect on `Words`
is its effect on the set of strings the trie holds.

The files:

- `alphabet.dfy` (module `Alphabet`): letters, the slot arithmetic
  `c - 'a'`, and ASCII lower-casing.
- `spellchecker.dfy` (module `SpellChecking`): the nodes, the trie,
  insertion, construction, and the structural lemmas.

All paths below are under `src/main/java/edu/grinnell/csc207/spellchecker/`.

## Model

| member | source | states |
|---|---|---|
| Alphabet.SlotOf | src/main/java/edu/grinnell/csc207/spellchecker/SpellChecker.java:54-56 | The slot `c - 'a'` lies in [0, 26) exactly when `c` is a lower-case letter. So the array access of `add` is in bounds for 'a'..'z' and out of bounds for any other character. |
| Alphabet.Letter | src/main/java/edu/grinnell/csc207/spellchecker/SpellChecker.java:13-14 | Each of the 26 slot indices belongs to a lower-case letter whose slot is that index. |
| Alphabet.LetterInjective | src/main/java/edu/grinnell/csc207/spellchecker/SpellChecker.java:55 | Different slots belong to different letters, in both directions. |
| Alphabet.ToLower | src/main/java/edu/grinnell/csc207/spellchecker/SpellChecker.java:47 | An upper-case ASCII letter maps to the lower-case letter with the same slot. Every other character is left as it is. |
| Alphabet.ToLowerWord | src/main/java/edu/grinnell/csc207/spellchecker/SpellChecker.java:47 | Lower-casing a word keeps its length and lower-cases each character in place. |
| Alphabet.ToLowerWordIsLower | src/main/java/edu/grinnell/csc207/spellchecker/SpellChecker.java:46-47 | A lower-cased entry is all lower-case letters exactly when the entry is all ASCII letters. That is exactly when `add` can take it. |
| Alphabet.ToLowerWordKeepsLower | src/main/java/edu/grinnell/csc207/spellchecker/SpellChecker.java:47 | An entry that is already lower-case is left unchanged. |
| Alphabet.ToLowerWordIdempotent | src/main/java/edu/grinnell/csc207/spellchecker/SpellChecker.java:47 | Lower-casing twice gives the same as lower-casing once. |
| SpellChecking.LoweredWordsStep | src/main/java/edu/grinnell/csc207/spellchecker/SpellChecker.java:46-47 | Taking one more entry of the list adds exactly that entry's lower-cased form to the lowered set. |
| SpellChecking.LoweredWordsIgnoresOrder | src/main/java/edu/grinnell/csc207/spellchecker/SpellChecker.java:44-49 | Two lists with the same entries give the same stored set, whatever their order and however often entries repeat. |
| SpellChecking.InsertKeepsShape | src/main/java/edu/grinnell/csc207/spellchecker/SpellChecker.java:56-57 | Giving a new one-letter extension of a present prefix a fresh node keeps the prefixes closed and the nodes and arrays unshared. |
| SpellChecking.Node.constructor | src/main/java/edu/grinnell/csc207/spellchecker/SpellChecker.java:35-38 | A new node has a fresh array of 26 slots, every slot null, and is not a word. |
| SpellChecking.SpellChecker.Follow | src/main/java/edu/grinnell/csc207/spellchecker/SpellChecker.java:52-59 | The walk from a node of the trie ends at a node of the trie or at null. |
| SpellChecking.SpellChecker.constructor | src/main/java/edu/grinnell/csc207/spellchecker/SpellChecker.java:44-49 | The new trie is valid and owns only fresh objects. Its stored words are exactly the lower-cased entries of the list. The only prefixes with a node are "" and the prefixes of those words, so the shape too depends only on which entries occur. |
| SpellChecking.SpellChecker.Add | src/main/java/edu/grinnell/csc207/spellchecker/SpellChecker.java:51-62 | The trie stays valid and the root does not change. The stored words become the old ones plus `w`, so no proper prefix of `w` becomes a word. The node for `w` is present and marked; for "" that node is the root. The prefixes present become the old ones plus the prefixes of `w`. No existing prefix gets a different node, and every new object is fresh. When the path of `w` is already present, nothing is allocated and no prefix changes. |
| SpellChecking.SpellChecker.Descend | src/main/java/edu/grinnell/csc207/spellchecker/SpellChecker.java:55-59 | One step of the walk returns the node for `p` plus the slot's letter, and the trie stays valid. If that prefix was present, nothing changes. Otherwise exactly that prefix is added, with a fresh node and a fresh array. |
| SpellChecking.SpellChecker.SameAbstractionSameTrie | src/main/java/edu/grinnell/csc207/spellchecker/SpellChecker.java:56-61 | Two valid states with the same prefixes, nodes and words have the same slots and flags. With `Add`'s contract this gives idempotence: adding a stored word again leaves every slot and every flag as it was. |
| SpellChecking.SpellChecker.FollowFromPrefix | src/main/java/edu/grinnell/csc207/spellchecker/SpellChecker.java:52-59 | Walking `s` from the node for `p` reaches the node for `p + s`, or null when `p + s` is absent. |
| SpellChecking.SpellChecker.StoredIsWords | src/main/java/edu/grinnell/csc207/spellchecker/SpellChecker.java:51-62 | A string is stored, meaning its walk from the root reaches a word node, exactly when it is in `Words`. |
| SpellChecking.SpellChecker.StoredWordPath | src/main/java/edu/grinnell/csc207/spellchecker/SpellChecker.java:52-61 | For a stored word, the walk succeeds at every prefix and ends at a node whose flag is set. |
| SpellChecking.SpellChecker.NoSharing | src/main/java/edu/grinnell/csc207/spellchecker/SpellChecker.java:28-39 | Two filled slots hold the same node only when they are the same slot of the same node. |
| SpellChecking.SpellChecker.RootIsNoChild | src/main/java/edu/grinnell/csc207/spellchecker/SpellChecker.java:41-45 | The root sits in no slot of any node. |
| SpellChecking.SpellChecker.Acyclic | src/main/java/edu/grinnell/csc207/spellchecker/SpellChecker.java:28-39 | A non-empty walk never leads back to the node it starts from. |

## Left out

- `fromFile` (SpellChecker.java:23-25) reads the word list from a file. It is I/O, so the constructor takes the list as a parameter instead.
- `main` (SpellChecker.java:84-120) checks arguments, prints and exits. It is command-line glue. Note that its `correct` command calls `getOneCharEndCorrections` (line 107), not `getOneCharCorrections`.
- The queries `isWord`, `getOneCharCompletions`, `getOneCharEndCorrections` and `getOneCharCorrections` (SpellChecker.java:64-82) are stubs that return `false` or `null`, so there is no behaviour to model. `Stored` is a specification device used to state what `Add` does. It does not model the stub `isWord`.
- `DICT_PATH` (line 17) is used only by `main`.
- Java's `String.toLowerCase` is Unicode- and locale-dependent. The model maps only ASCII 'A'..'Z' to 'a'..'z'. The constructor therefore requires every entry to consist of ASCII letters.
- SpellChecking.SpellChecker.Add: requires a lower-case word and does not model the out-of-alphabet path. On such a character the source throws an array-index exception part-way through the walk, after creating nodes for the prefix before it. The code has no guard, so the model makes this a precondition. `Alphabet.SlotOf` states exactly which characters are in bounds.
- SpellChecking.SpellChecker.constructor: requires every entry to be made of ASCII letters. A `null` entry or list throws in the source and is not modelled.
- `children` is a constant field: the source assigns it only in the node constructor.
- `Descend` is the body of the loop in `add`, written as its own method.
- SpellChecking.SpellChecker.Add: states its effect on `Words`, not on `Stored`. `StoredIsWords` turns one into the other in any valid state.
- SpellChecking.SpellChecker.SameAbstractionSameTrie: idempotence is stated as this lemma together with `Add`'s contract, not as a contract of a second call.
