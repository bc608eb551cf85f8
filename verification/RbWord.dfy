/** The word rb_parent_color of rbtree.h: the parent pointer with the colour in its lowest
    bit. The setters act on it as assignments to the two components parent and color of
    RbShape.Cell, whatever the word held before. */
module RbWord {
  import opened RbShape

  type Word = bv64

  /** The two lowest bits of a node address are free. The type is packed and does not see to
      that; the tracker's slots do (see PageTracker.SlotAligned). */
  predicate Aligned(p: Word) {
    p & 3 == 0
  }

  /** rb_parent */
  function Parent(w: Word): Word {
    w & 0xFFFF_FFFF_FFFF_FFFC
  }

  /** rb_color, rb_is_red, rb_is_black */
  function ColorOf(w: Word): Color {
    if w & 1 == 0 then Red else Black
  }

  lemma KeepLowBits(w: Word, p: Word)
    requires p & 3 == 0
    ensures ((w & 3) | p) & 1 == w & 1
    ensures ((w & 3) | p) & 0xFFFF_FFFF_FFFF_FFFC == p
  {
  }

  /** rb_set_parent */
  function SetParent(w: Word, p: Word): (r: Word)
    requires Aligned(p)
    ensures ColorOf(r) == ColorOf(w) && Parent(r) == p
  {
    KeepLowBits(w, p);
    (w & 3) | p
  }

  /** rb_set_color */
  function SetColor(w: Word, c: Color): (r: Word)
    ensures ColorOf(r) == c && Parent(r) == Parent(w)
  {
    (w & 0xFFFF_FFFF_FFFF_FFFE) | (if c.Red? then 0 else 1)
  }

  /** rb_set_red and rb_set_black are rb_set_color with a fixed colour. */
  lemma SetRedSetBlack(w: Word)
    ensures w & 0xFFFF_FFFF_FFFF_FFFE == SetColor(w, Red)
    ensures w | 1 == SetColor(w, Black)
  {
    assert (w & 0xFFFF_FFFF_FFFF_FFFE) | 0 == w & 0xFFFF_FFFF_FFFF_FFFE;
    assert (w & 0xFFFF_FFFF_FFFF_FFFE) | 1 == w | 1;
  }

  /** rb_link_node stores the bare parent pointer, which is a red node below that parent. */
  lemma LinkedWord(parent: Word)
    requires Aligned(parent)
    ensures ColorOf(parent) == Red && Parent(parent) == parent
  {
  }
}
