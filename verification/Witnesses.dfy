/**
 One instance of everything the other modules leave open, case mappings, codecs, hashes,
 platforms and `str`, each shown to meet what they demand of it.
 */
module Witnesses {
  import opened Wrappers
  import Codecs
  import Paths
  import Disks
  import ReleaseStores
  import Snapshots
  import Publishing
  import Channels

  // ---- what is left open can be filled in ----

  /** A file system that tells letter case apart. */
  function Plain(): Paths.Casing {
    c => c
  }

  lemma PlainKeepsMarks()
    ensures Paths.KeepsMarks(Plain())
  {
  }

  lemma PlainNames(s: string)
    ensures Paths.FoldName(Plain(), s) == s
  {
  }

  lemma PlainParts(name: string)
    requires '/' !in name
    ensures Paths.Parts(Plain(), name) == [name]
  {
    Paths.OnePart(name);
    PlainNames(name);
    assert Paths.FoldParts(Plain(), [name]) == [name];
  }

  /** A snapshot's metadata, written with the codecs. */
  function PathCodec(): Codecs.Codec<Paths.Path> {
    Codecs.Lists(Codecs.Strings())
  }

  function ItemOf(t: ((Paths.Path, string), bool)): Snapshots.Item {
    Snapshots.Item(t.0.0, t.0.1, t.1)
  }

  function ItemCodec(): Codecs.Codec<Snapshots.Item> {
    Codecs.Mapped(Codecs.Pairs(Codecs.Pairs(PathCodec(), Codecs.Strings()), Codecs.Flags()),
                  (i: Snapshots.Item) => ((i.path, i.name), i.existed), ItemOf)
  }

  function MetadataFrom(t: ((seq<Snapshots.Item>, Paths.Path), bool)): Snapshots.Metadata {
    Snapshots.Metadata(t.0.0, t.0.1, t.1)
  }

  function MetadataCodec(): Codecs.Codec<Snapshots.Metadata> {
    Codecs.Mapped(Codecs.Pairs(Codecs.Pairs(Codecs.Lists(ItemCodec()), PathCodec()), Codecs.Flags()),
                  (m: Snapshots.Metadata) => ((m.items, m.database), m.databaseExists), MetadataFrom)
  }

  lemma MetadataCodecIsGood()
    ensures Codecs.Good(MetadataCodec())
  {
    Codecs.StringsGood();
    Codecs.ListsGood(Codecs.Strings());
    Codecs.PairsGood(PathCodec(), Codecs.Strings());
    Codecs.PairsGood(Codecs.Pairs(PathCodec(), Codecs.Strings()), Codecs.Flags());
    Codecs.MappedGood(Codecs.Pairs(Codecs.Pairs(PathCodec(), Codecs.Strings()), Codecs.Flags()),
                      (i: Snapshots.Item) => ((i.path, i.name), i.existed), ItemOf);
    Codecs.ListsGood(ItemCodec());
    Codecs.PairsGood(Codecs.Lists(ItemCodec()), PathCodec());
    Codecs.PairsGood(Codecs.Pairs(Codecs.Lists(ItemCodec()), PathCodec()), Codecs.Flags());
    Codecs.MappedGood(Codecs.Pairs(Codecs.Pairs(Codecs.Lists(ItemCodec()), PathCodec()), Codecs.Flags()),
                      (m: Snapshots.Metadata) => ((m.items, m.database), m.databaseExists), MetadataFrom);
  }

  function Decode(c: Codecs.Codec<Snapshots.Metadata>, b: Bytes): Option<Snapshots.Metadata> {
    var m := Codecs.Parse(c, b);
    if m.Some? && m.value.database != [] then m else None
  }

  /** One configuration, whose database is a plain file with its log in front. */
  function HostWith(c: Codecs.Codec<Snapshots.Metadata>): Snapshots.Host {
    Snapshots.Host(["config.json"], _ => Some(Snapshots.Locations(["providers.json"], ["momoi.db"])),
                   (db: Bytes, log: Option<Bytes>) => if log.Some? then log.value + db else db, rows => rows,
                   c.write, b => Decode(c, b))
  }

  lemma HostWithIsSane(c: Codecs.Codec<Snapshots.Metadata>)
    requires Codecs.Good(c)
    ensures HostWith(c).Sane()
  {
    var h := HostWith(c);
    forall m: Snapshots.Metadata | m.database != [] ensures h.decode(h.encode(m)) == Some(m) {
      Codecs.DocumentsParse(c, m, []);
    }
    forall m, left | Disks.IsTorn(h.encode(m), left) ensures h.decode(left).None? {
      Codecs.DocumentsParse(c, m, left);
    }
  }

  function SomeHost(): Snapshots.Host {
    HostWith(MetadataCodec())
  }

  lemma SomeHostIsSane()
    ensures SomeHost().Sane()
  {
    MetadataCodecIsGood();
    HostWithIsSane(MetadataCodec());
  }

  // ---- a signer ----

  function RefFrom(t: ((string, string), nat)): Publishing.Ref {
    Publishing.Ref(t.0.0, t.0.1, t.1)
  }

  function RefCodec(): Codecs.Codec<Publishing.Ref> {
    Codecs.Mapped(Codecs.Pairs(Codecs.Pairs(Codecs.Strings(), Codecs.Strings()), Codecs.Nats()),
                  (r: Publishing.Ref) => ((r.key, r.sha256), r.size), RefFrom)
  }

  function LatestFrom(t: ((string, string), Publishing.Ref)): Publishing.Latest {
    Publishing.Latest(t.0.0, t.0.1, t.1)
  }

  function LatestCodec(): Codecs.Codec<Publishing.Latest> {
    Codecs.Mapped(Codecs.Pairs(Codecs.Pairs(Codecs.Strings(), Codecs.Strings()), RefCodec()),
                  (l: Publishing.Latest) => ((l.version, l.releaseId), l.code), LatestFrom)
  }

  function CatalogFrom(t: (string, seq<Publishing.Ref>)): Publishing.Catalog {
    Publishing.Catalog(t.0, t.1)
  }

  function CatalogCodec(): Codecs.Codec<Publishing.Catalog> {
    Codecs.Mapped(Codecs.Pairs(Codecs.Strings(), Codecs.Lists(RefCodec())),
                  (c: Publishing.Catalog) => (c.version, c.artifacts), CatalogFrom)
  }

  lemma SignedCodecsAreGood()
    ensures Codecs.Good(LatestCodec()) && Codecs.Good(CatalogCodec())
  {
    Codecs.StringsGood();
    Codecs.NatsGood();
    Codecs.PairsGood(Codecs.Strings(), Codecs.Strings());
    Codecs.PairsGood(Codecs.Pairs(Codecs.Strings(), Codecs.Strings()), Codecs.Nats());
    Codecs.MappedGood(Codecs.Pairs(Codecs.Pairs(Codecs.Strings(), Codecs.Strings()), Codecs.Nats()),
                      (r: Publishing.Ref) => ((r.key, r.sha256), r.size), RefFrom);
    Codecs.PairsGood(Codecs.Pairs(Codecs.Strings(), Codecs.Strings()), RefCodec());
    Codecs.MappedGood(Codecs.Pairs(Codecs.Pairs(Codecs.Strings(), Codecs.Strings()), RefCodec()),
                      (l: Publishing.Latest) => ((l.version, l.releaseId), l.code), LatestFrom);
    Codecs.ListsGood(RefCodec());
    Codecs.PairsGood(Codecs.Strings(), Codecs.Lists(RefCodec()));
    Codecs.MappedGood(Codecs.Pairs(Codecs.Strings(), Codecs.Lists(RefCodec())),
                      (c: Publishing.Catalog) => (c.version, c.artifacts), CatalogFrom);
  }

  /** A hash without collisions: the bytes themselves, as characters. */
  function Spelled(b: Bytes): (s: string)
    ensures |s| == |b| && forall i :: 0 <= i < |b| ==> s[i] == b[i] as char
  {
    seq(|b|, i requires 0 <= i < |b| => b[i] as char)
  }

  lemma SpelledApart(a: Bytes, b: Bytes)
    requires Spelled(a) == Spelled(b)
    ensures a == b
  {
    forall i | 0 <= i < |a| ensures a[i] == b[i] { assert Spelled(a)[i] as int == a[i] && Spelled(b)[i] as int == b[i]; }
  }

  function SignerWith(l: Codecs.Codec<Publishing.Latest>, c: Codecs.Codec<Publishing.Catalog>): Publishing.Signer {
    Publishing.Signer(Spelled, l.write, b => Codecs.Parse(l, b), c.write, b => Codecs.Parse(c, b))
  }

  lemma SignerWithIsSane(l: Codecs.Codec<Publishing.Latest>, c: Codecs.Codec<Publishing.Catalog>)
    requires Codecs.Good(l) && Codecs.Good(c)
    ensures SignerWith(l, c).Sane()
  {
    var g := SignerWith(l, c);
    forall a, b | g.sha(a) == g.sha(b) ensures a == b { SpelledApart(a, b); }
    forall x ensures g.readLatest(g.signLatest(x)) == Some(x) { Codecs.DocumentsParse(l, x, []); }
    forall x ensures g.readCatalog(g.signCatalog(x)) == Some(x) { Codecs.DocumentsParse(c, x, []); }
  }

  function SomeSigner(): Publishing.Signer {
    SignerWith(LatestCodec(), CatalogCodec())
  }

  lemma SomeSignerIsSane()
    ensures SomeSigner().Sane()
  {
    SignedCodecsAreGood();
    SignerWithIsSane(LatestCodec(), CatalogCodec());
  }

  // ---- a platform ----

  /** Every platform with sane rules has a check. */
  function PlatformOf(p: ReleaseStores.Rules): ReleaseStores.Platform {
    ReleaseStores.Platform(p, t => ReleaseStores.CheckTree(p, t))
  }

  lemma PlatformIsSane(p: ReleaseStores.Rules)
    requires p.Sane()
    ensures PlatformOf(p).Sane()
  {
  }

  // ---- `str` ----

  function SomeStr(v: Channels.Json): string {
    if v.JStr? then v.text else "x"
  }
}
