/** The prefix-tree dictionary of the spell checker: nodes with 26 child
    slots and a word flag, insertion of a word, and construction from a word
    list. */
module SpellChecking {
  import opened Alphabet

  /** The lower-cased form of every entry of a word list. */
  function LoweredWords(dict: seq<string>): set<string>
  {
    set w | w in dict :: ToLowerWord(w)
  }

  /** Lowering one more entry adds its lower-cased form. */
  lemma LoweredWordsStep(dict: seq<string>, k: nat)
    requires k < |dict|
    ensures LoweredWords(dict[..k + 1]) == LoweredWords(dict[..k]) + {ToLowerWord(dict[k])}
  {
    assert dict[..k + 1] == dict[..k] + [dict[k]];
  }

  /** The stored set a word list gives depends only on which entries occur:
      not on their order, nor on how often each occurs. */
  lemma LoweredWordsIgnoresOrder(a: seq<string>, b: seq<string>)
    requires forall w :: w in a <==> w in b
    ensures LoweredWords(a) == LoweredWords(b)
  {
  }

  /** `p` is a prefix of `w` (possibly empty, possibly all of `w`). */
  predicate IsPrefixOf(p: string, w: string)
  {
    p <= w
  }

  /** The prefixes present are lower-case and closed under taking prefixes. */
  ghost predicate PrefixClosed(P: map<string, Node>)
  {
    && (forall p :: p in P ==> IsLowerWord(p))
    && (forall p, k :: p in P && 0 <= k <= |p| ==> p[..k] in P)
  }

  /** Every node and children array belongs to `R` and every children array
      has 26 slots; no two prefixes share a node or a children array. */
  ghost predicate Owned(P: map<string, Node>, R: set<object>)
  {
    && (forall p :: p in P ==> P[p] in R && P[p].children in R && P[p].children.Length == NumLetters)
    && (forall p, q :: p in P && q in P && p != q ==> P[p] != P[q] && P[p].children != P[q].children)
  }

  /** Giving a new one-letter extension of a present prefix a new node keeps
      the prefixes closed and the nodes unshared. */
  lemma InsertKeepsShape(P: map<string, Node>, R: set<object>, p: string, c: char, n: Node)
    requires PrefixClosed(P) && Owned(P, R)
    requires p in P && IsLower(c) && p + [c] !in P
    requires n !in R && n.children !in R && n.children.Length == NumLetters
    ensures PrefixClosed(P[p + [c] := n]) && Owned(P[p + [c] := n], R + {n, n.children})
  {
    var q := p + [c];
    var P' := P[q := n];
    forall r, k | r in P' && 0 <= k <= |r| ensures r[..k] in P' {
      if r == q && k <= |p| {
        assert q[..k] == p[..k];
      } else if r == q {
        assert q[..k] == q;
      }
    }
  }

  /** In a prefix-closed set of prefixes, nothing extends an absent prefix. */
  lemma AbsentHasNoExtension(P: map<string, Node>, q: string)
    requires PrefixClosed(P) && q !in P
    ensures forall c: char :: q + [c] !in P
  {
    forall c: char ensures q + [c] !in P {
      assert (q + [c])[..|q|] == q;
    }
  }

  /** One node of the trie. */
  class Node {
    /** One slot per letter; `null` where no stored word continues with it. */
    const children: array<Node?>
    /** Whether the path from the root to this node spells a stored word. */
    var isWord: bool

    /** A fresh node stands for no word and has no child. */
    constructor ()
      ensures fresh(children) && children.Length == NumLetters
      ensures forall i :: 0 <= i < children.Length ==> children[i] == null
      ensures !isWord
    {
      children := new Node?[NumLetters](_ => null);
      isWord := false;
    }
  }

  class SpellChecker {
    /** The node for the empty prefix. */
    var root: Node

    /** This object, every node of the trie and every children array. */
    ghost var Repr: set<object>
    /** The node that stands for each prefix present in the trie. */
    ghost var Prefix: map<string, Node>
    /** The stored words. */
    ghost var Words: set<string>

    /** The trie is a tree of nodes keyed by their prefixes: the root stands
        for "", the prefixes present are closed under taking prefixes, no two
        prefixes share a node or a children array, every children array has
        26 slots, slot i of the node for p holds the node for p + [Letter(i)]
        (null when that prefix is absent), and a node is a word exactly when
        its prefix is a stored word. */
    ghost predicate Valid()
      reads this, Repr
    {
      && this in Repr
      && "" in Prefix && Prefix[""] == root
      && PrefixClosed(Prefix)
      && Owned(Prefix, Repr)
      && Linked()
      && Marked()
    }

    /** Slot i of the node for p holds the node for p + [Letter(i)], or null
        when that prefix is absent. */
    ghost predicate Linked()
      requires Owned(Prefix, Repr)
      reads this, Repr
    {
      forall p, i {:trigger Prefix[p].children[i]} :: p in Prefix && 0 <= i < NumLetters ==>
        Prefix[p].children[i] == if p + [Letter(i)] in Prefix then Prefix[p + [Letter(i)]] else null
    }

    /** A node is a word node exactly when its prefix is a stored word. */
    ghost predicate Marked()
      requires Owned(Prefix, Repr)
      reads this, Repr
    {
      && (forall p :: p in Prefix ==> (Prefix[p].isWord <==> p in Words))
      && Words <= Prefix.Keys
    }

    /** The node reached by following the letters of `s` down from `n`, or
        null when a slot on the way is empty or a character is not a letter. */
    ghost function Follow(n: Node, s: string): (r: Node?)
      requires Valid() && n in Prefix.Values
      reads this, Repr
      ensures r != null ==> r in Prefix.Values
      decreases |s|
    {
      if s == [] then n
      else if !IsLower(s[0]) then null
      else
        var p :| p in Prefix && Prefix[p] == n;
        var c := n.children[SlotOf(s[0])];
        assert c != null ==> c == Prefix[p + [Letter(SlotOf(s[0]))]];
        if c == null then null else Follow(c, s[1..])
    }

    /** `s` is stored: following it from the root reaches a word node. */
    ghost predicate Stored(s: string)
      requires Valid()
      reads this, Repr
    {
      var n := Follow(root, s);
      n != null && n.isWord
    }

    /** An empty word list gives a trie with no node but the root and no
        stored word; then every lower-cased entry is added in order. The
        stored words are the lower-cased entries, and the only prefixes with
        a node are "" and the prefixes of those words. */
    constructor (dict: seq<string>)
      requires forall w :: w in dict ==> IsLetterWord(w)
      ensures Valid() && fresh(Repr)
      ensures Words == LoweredWords(dict)
      ensures forall p :: p in Prefix <==> p == "" || exists w :: w in Words && IsPrefixOf(p, w)
    {
      var r := new Node();
      root := r;
      Prefix := map["" := r];
      Words := {};
      Repr := {this, r, r.children};
      new;
      for k := 0 to |dict|
        invariant Valid() && fresh(Repr)
        invariant Words == LoweredWords(dict[..k])
        invariant forall p :: p in Prefix <==> p == "" || exists w :: w in Words && IsPrefixOf(p, w)
      {
        ToLowerWordIsLower(dict[k]);
        LoweredWordsStep(dict, k);
        Add(ToLowerWord(dict[k]));
      }
      assert dict[..|dict|] == dict;
    }

    /** Adds a lower-case word: walks down from the root, creating a fresh
        node in every empty slot on the way, and marks the node it stops at.
        The prefixes present grow by the prefixes of `w`, no existing node is
        replaced, and adding a word whose path is already present allocates
        nothing. */
    method Add(w: string)
      requires Valid() && IsLowerWord(w)
      modifies Repr
      ensures Valid() && fresh(Repr - old(Repr))
      ensures root == old(root)
      ensures Words == old(Words) + {w}
      ensures w in Prefix && Prefix[w].isWord
      ensures forall p :: p in Prefix <==> p in old(Prefix) || IsPrefixOf(p, w)
      ensures forall p :: p in old(Prefix) ==> Prefix[p] == old(Prefix[p])
      ensures w in old(Prefix) ==> Prefix == old(Prefix) && Repr == old(Repr)
    {
      var current := root;
      for i := 0 to |w|
        invariant Valid() && fresh(Repr - old(Repr))
        invariant root == old(root) && Words == old(Words)
        invariant w[..i] in Prefix && current == Prefix[w[..i]]
        invariant forall p :: p in Prefix <==> p in old(Prefix) || IsPrefixOf(p, w[..i])
        invariant forall p :: p in old(Prefix) ==> p in Prefix && Prefix[p] == old(Prefix[p])
        invariant w in old(Prefix) ==> Prefix == old(Prefix) && Repr == old(Repr)
      {
        LetterOfSlot(w[i]);
        PrefixStep(w, i);
        current := Descend(current, w[..i], SlotOf(w[i]));
      }
      assert w[..|w|] == w;
      current.isWord, Words := true, Words + {w};
      assert Marked();
    }

    /** One step of the walk in `add`: the child of `current` (the node for
        `p`) in slot `index`, after filling that slot with a fresh node if it
        was empty. */
    method Descend(current: Node, ghost p: string, index: int) returns (next: Node)
      requires Valid() && p in Prefix && current == Prefix[p] && 0 <= index < NumLetters
      modifies this, current.children
      ensures Valid() && root == old(root) && Words == old(Words)
      ensures p + [Letter(index)] in Prefix && next == Prefix[p + [Letter(index)]]
      ensures if p + [Letter(index)] in old(Prefix) then Prefix == old(Prefix) && Repr == old(Repr)
              else fresh(next) && fresh(next.children) &&
                   Prefix == old(Prefix)[p + [Letter(index)] := next] && Repr == old(Repr) + {next, next.children}
    {
      ghost var q := p + [Letter(index)];
      if current.children[index] == null {
        var n := new Node();
        current.children[index] := n;
        InsertKeepsShape(Prefix, Repr, p, Letter(index), n);
        AbsentHasNoExtension(Prefix, q);
        Prefix, Repr := Prefix[q := n], Repr + {n, n.children};
        assert Linked() by {
          forall r, j | r in Prefix && 0 <= j < NumLetters
            ensures Prefix[r].children[j] == if r + [Letter(j)] in Prefix then Prefix[r + [Letter(j)]] else null
          {
            var e := r + [Letter(j)];
            if r != q && e == q {
              AppendInjective(r, p, Letter(j), Letter(index));
              LetterInjective(j, index);
            }
          }
        }
        assert Marked();
      }
      next := current.children[index];
    }

    /** Two valid states with the same prefixes, nodes and stored words have
        the same slots and the same word flags: the trie is determined by its
        abstraction. */
    twostate lemma SameAbstractionSameTrie()
      requires old(Valid()) && Valid()
      requires Prefix == old(Prefix) && Words == old(Words)
      ensures forall p, i :: p in Prefix && 0 <= i < NumLetters ==>
        Prefix[p].children[i] == old(Prefix[p].children[i])
      ensures forall p :: p in Prefix ==> Prefix[p].isWord == old(Prefix[p].isWord)
    {
    }

    /** Following `s` from the node for `p` reaches the node for `p + s`, and
        reaches nothing when `p + s` is not a prefix in the trie. */
    lemma {:induction false} FollowFromPrefix(p: string, s: string)
      requires Valid() && p in Prefix
      ensures Follow(Prefix[p], s) == if p + s in Prefix then Prefix[p + s] else null
      decreases |s|
    {
      if s == [] {
        assert p + s == p;
      } else if !IsLower(s[0]) {
        assert (p + s)[|p|] == s[0];
      } else {
        var q := p + [s[0]];
        assert q + s[1..] == p + s;
        LetterOfSlot(s[0]);
        if q in Prefix {
          FollowFromPrefix(q, s[1..]);
        } else {
          assert (p + s)[..|q|] == q;
        }
      }
    }

    /** The prefixes of `w[..i + 1]` are those of `w[..i]` and `w[..i + 1]`
        itself, which is `w[..i]` followed by the letter `w[i]`. */
    static lemma PrefixStep(w: string, i: nat)
      requires i < |w| && IsLower(w[i])
      ensures w[..i + 1] == w[..i] + [Letter(SlotOf(w[i]))]
      ensures forall p :: IsPrefixOf(p, w[..i + 1]) <==> IsPrefixOf(p, w[..i]) || p == w[..i + 1]
    {
      LetterOfSlot(w[i]);
      forall p ensures IsPrefixOf(p, w[..i + 1]) <==> IsPrefixOf(p, w[..i]) || p == w[..i + 1] {
        if p <= w[..i + 1] && p != w[..i + 1] {
          assert |p| <= i;
          assert p == w[..i + 1][..|p|] == w[..i][..|p|];
        }
      }
    }

    /** Appending one character is injective. */
    static lemma AppendInjective(p: string, q: string, a: char, b: char)
      requires p + [a] == q + [b]
      ensures p == q && a == b
    {
      assert p == (p + [a])[..|p|];
      assert q == (q + [b])[..|q|];
      assert (p + [a])[|p|] == a;
    }

    /** The stored set is exactly `Words`. */
    lemma StoredIsWords(s: string)
      requires Valid()
      ensures Stored(s) <==> s in Words
    {
      FollowFromPrefix("", s);
      assert "" + s == s;
    }

    /** Every step of the path of a stored word is present, and the path
        ends at a word node. */
    lemma StoredWordPath(w: string, k: nat)
      requires Valid() && w in Words && k <= |w|
      ensures Follow(root, w[..k]) != null
      ensures Follow(root, w) != null && Follow(root, w).isWord
    {
      FollowFromPrefix("", w[..k]);
      FollowFromPrefix("", w);
      assert "" + w[..k] == w[..k] && "" + w == w;
    }

    /** No sharing: two filled slots hold the same node only if they are the
        same slot of the same node. */
    lemma NoSharing(p: string, i: int, q: string, j: int)
      requires Valid() && p in Prefix && q in Prefix
      requires 0 <= i < NumLetters && 0 <= j < NumLetters
      requires Prefix[p].children[i] != null && Prefix[p].children[i] == Prefix[q].children[j]
      ensures p == q && i == j
    {
      assert Prefix[p + [Letter(i)]] == Prefix[q + [Letter(j)]];
      AppendInjective(p, q, Letter(i), Letter(j));
      LetterInjective(i, j);
    }

    /** The root is in no slot of any node. */
    lemma RootIsNoChild(p: string, i: int)
      requires Valid() && p in Prefix && 0 <= i < NumLetters
      ensures Prefix[p].children[i] != root
    {
      if Prefix[p].children[i] != null {
        assert Prefix[p + [Letter(i)]] != Prefix[""];
      }
    }

    /** No cycles: a non-empty path never leads back to the node it starts at. */
    lemma Acyclic(p: string, s: string)
      requires Valid() && p in Prefix && s != []
      ensures Follow(Prefix[p], s) != Prefix[p]
    {
      FollowFromPrefix(p, s);
      assert |p + s| > |p|;
    }
  }
}
