/**
 * `load32_arm` of loader/ove_loader.c, as far as it places sections and relocates
 * Thumb branches: the two loops one after the other on one load region.
 */
module Loader {
  import opened Arith
  import opened Common
  import opened LoaderLayout
  import opened ThumbReloc

  /** A relocated place covers byte k of the region. */
  predicate Covered(rels: seq<Rel>, k: nat) { exists r :: r in rels && r.at <= k < r.at + 4 }

  /** Byte k of the section, counted from its start, as the file has it. */
  function FileByte(s: Section, image: seq<Byte>, k: nat): Byte
    requires k < s.size && (s.kind != Nobits ==> s.offset + s.size <= |image|)
  {
    if s.kind == Nobits then 0 else image[s.offset + k]
  }

  /** The section is in the region as the file has it, but for the relocated places. */
  ghost predicate LoadedAt(st: seq<Byte>, s: Section, p: Place, image: seq<Byte>, rels: seq<Rel>)
  {
    p.At? ==>
      && p.off + s.size <= |st| && (s.kind != Nobits ==> s.offset + s.size <= |image|)
      && forall k :: p.off <= k < p.off + s.size && !Covered(rels, k) ==> st[k] == FileByte(s, image, k - p.off)
  }

  /** Relocation below `loaded` keeps a section that lies there, but for the places. */
  lemma HoldsAfter(a: seq<Byte>, b: seq<Byte>, s: Section, p: Place, image: seq<Byte>, rels: seq<Rel>, loaded: nat)
    requires Holds(a, s, p, image) && OnlyPlaces(a, b, rels, loaded) && (p.At? ==> p.off + s.size <= loaded)
    ensures LoadedAt(b, s, p, image, rels)
  {
    if p.At? {
      forall k | p.off <= k < p.off + s.size && !Covered(rels, k) ensures b[k] == FileByte(s, image, k - p.off) {
        assert a[k] == b[k];
        if s.kind != Nobits { assert a[k] == a[p.off..p.off + s.size][k - p.off]; }
      }
    }
  }

  /**
   * Loading. When no rounding of the layout wraps, every section ends up in the
   * region as the file has it, except at the relocated places, and the veneers lie
   * behind every section, one behind the other. `loaded` is the region between the
   * two loops; if its places are standard, every branch reaches its target.
   */
  method Load(secs: seq<Section>, image: seq<Byte>, region: array<Byte>, base: nat, rels: seq<Rel>)
    returns (ok: bool, used: nat, ghost l: Layout, ghost loaded: seq<Byte>, ghost routes: seq<Route>)
    requires 0 < base && base % 4 == 0 && base + region.Length < WORD
    requires forall r :: r in rels ==> r.at % 2 == 0 && r.target < WORD
    requires LayOut(secs, 0, region.Length, |image|).Placed? ==>
               forall r :: r in rels ==> r.at + 4 <= LayOut(secs, 0, region.Length, |image|).used
    modifies region
    ensures l == LayOut(secs, 0, region.Length, |image|) && (l.Fail? ==> !ok)
    ensures l.Placed? && l.used + 11 * |rels| <= region.Length ==> ok
    ensures ok && Stays(secs, 0) ==>
      && |l.places| == |secs| && |routes| == |rels| && VeneersApart(routes, l.used, used) && used <= region.Length
      && (forall i :: 0 <= i < |secs| ==> LoadedAt(region[..], secs[i], l.places[i], image, rels))
      && (forall i :: 0 <= i < |secs| && l.places[i].At? ==> l.places[i].off + secs[i].size <= l.used)
      && (Standard(loaded, rels, l.used) ==>
            forall i :: 0 <= i < |rels| ==> Arrives(region[..], base, rels[i], routes[i], l.used, used))
    ensures ok && Stays(secs, 0) ==>
      |l.places| == |secs| && forall i :: 0 <= i < |secs| ==> Holds(loaded, secs[i], l.places[i], image)
  {
    hide Holds, LoadedAt, Standard, Arrives, LayOut, Stays, VeneersApart, OnlyPlaces;
    used, loaded, routes := 0, [], [];
    var layout := PlaceSections(secs, image, region);
    l := layout;
    loaded := region[..];
    if layout.Fail? { return false, 0, l, loaded, routes; }
    UsedInside(secs, 0, region.Length, |image|);
    var m := new Module(base, region, layout.used);
    ok, routes := m.Relocate(rels);
    used := m.used;
    if ok && Stays(secs, 0) {
      forall i | 0 <= i < |secs| ensures LoadedAt(region[..], secs[i], l.places[i], image, rels) {
        HoldsAfter(loaded, region[..], secs[i], l.places[i], image, rels, l.used);
      }
    }
  }

  /** What is placed is measured by the region, wrapped or not. */
  lemma {:induction false} UsedInside(secs: seq<Section>, off: nat, limit: nat, imageLen: nat)
    requires LayOut(secs, off, limit, imageLen).Placed? && off <= limit
    ensures LayOut(secs, off, limit, imageLen).used <= limit
  {
    hide AlignUp;
    if secs == [] {
    } else {
      var o := if Loadable(secs[0]) then AlignUp(off, Alignment(secs[0])) + secs[0].size else off;
      UsedInside(secs[1..], o, limit, imageLen);
    }
  }
}
