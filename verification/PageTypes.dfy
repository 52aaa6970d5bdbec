/** Page sizes and the rounding helpers every other module counts pages with. */
module PageTypes {

  datatype Option<+T> = None | Some(value: T) {
    function GetOr(default: T): T {
      match this
      case Some(v) => v
      case None => default
    }
  }

  /** `enum pag`: the depth of the table an entry of that size sits in. */
  datatype PageType = Lev4 | BigPage | MidPage | SmallPage

  const PAGE_BYTES: nat := 4096

  /** Bytes behind one entry. As in the source everything but the two large sizes counts as 4096. */
  function Multi(pagetype: PageType): nat {
    match pagetype
    case MidPage => 4096 * 512
    case BigPage => 4096 * 512 * 512
    case _ => 4096
  }

  /** The same size in 4096-byte pages. */
  function Pages(pagetype: PageType): (n: nat)
    ensures n > 0 && n * PAGE_BYTES == Multi(pagetype)
  {
    match pagetype
    case MidPage => 512
    case BigPage => 512 * 512
    case _ => 1
  }

  function ToSmallPage(x: nat): nat {
    if x % 4096 != 0 then x / 4096 + 1 else x / 4096
  }

  /** The intended `pagetype_roundup`. The source has its two branches the wrong way round,
      see RoundUpAsWritten. */
  function RoundUp(x: nat, pagetype: PageType): nat {
    if x % Multi(pagetype) != 0 then x / Multi(pagetype) + 1 else x / Multi(pagetype)
  }

  function RoundUpAsWritten(x: nat, pagetype: PageType): nat {
    if x % Multi(pagetype) != 0 then x / Multi(pagetype) else x / Multi(pagetype) + 1
  }

  /** n pages of m bytes are the least number of pages that hold x bytes. */
  ghost predicate Covers(x: nat, n: nat, m: nat) {
    x <= n * m && (n > 0 ==> (n - 1) * m < x)
  }

  lemma RoundUpCovers(x: nat, pagetype: PageType)
    ensures Covers(x, RoundUp(x, pagetype), Multi(pagetype))
    ensures pagetype == SmallPage ==> ToSmallPage(x) == RoundUp(x, pagetype)
  {
    match pagetype
    case Lev4 =>
    case BigPage =>
    case MidPage =>
    case SmallPage =>
  }

  /** As written the helper is wrong on every input: it drops the last partial page, and adds
      a page where the size was exact. */
  lemma RoundUpAsWrittenNeverCovers(x: nat, pagetype: PageType)
    ensures !Covers(x, RoundUpAsWritten(x, pagetype), Multi(pagetype))
  {
    match pagetype
    case Lev4 =>
    case BigPage =>
    case MidPage =>
    case SmallPage =>
  }
}
