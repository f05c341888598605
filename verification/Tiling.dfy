/** Reads of memory, and what it means that they cover a range without gap or overlap. */
module Tiling {
  datatype Read = Read(addr: nat, len: nat)

  /** `rs` visits [a, b) once, in order, in nonempty pieces of at most `c` bytes. */
  ghost predicate Tiles(rs: seq<Read>, a: nat, b: nat, c: nat) {
    if rs == [] then a == b
    else rs[0].addr == a && 0 < rs[0].len <= c && Tiles(rs[1..], a + rs[0].len, b, c)
  }

  lemma {:induction false} TilesJoin(rs: seq<Read>, ss: seq<Read>, a: nat, m: nat, b: nat, c: nat)
    requires Tiles(rs, a, m, c) && Tiles(ss, m, b, c)
    ensures Tiles(rs + ss, a, b, c)
    decreases |rs|
  {
    if rs == [] {
      assert rs + ss == ss;
    } else {
      TilesJoin(rs[1..], ss, a + rs[0].len, m, b, c);
      assert (rs + ss)[1..] == rs[1..] + ss;
    }
  }

  lemma TilesFirst(r: Read, rs: seq<Read>, b: nat, c: nat)
    requires 0 < r.len <= c && Tiles(rs, r.addr + r.len, b, c)
    ensures Tiles([r] + rs, r.addr, b, c)
  {
    assert ([r] + rs)[1..] == rs;
  }
}
