/** The address arithmetic around virtio capabilities in src/selinos_pci.c:
    ranges inside a BAR, the one page that is mapped, and the notification
    address (Virtio 1.1, section 4.1.4.4). */
module VirtioRange {
  import opened Bits

  const PAGE: nat := 4096
  const VENDOR: U16 := 0x1af4
  const BLK_MODERN: U16 := 0x1042
  const BAR_COUNT: nat := 6
  const COMMON_MIN_LENGTH: nat := 0x38
  const NOTIFY_MIN_LENGTH: nat := 0x14
  const FEATURE_SELECT_OFF: nat := 0x00
  const FEATURE_OFF: nat := 0x04

  datatype Identity = Identity(device: nat, function_: nat, vendor: U16, product: U16)

  datatype CommonCap = CommonCap(identity: Identity, bar: nat, offset: U32, length: U32)

  datatype CommonRange =
    CommonRange(capability: CommonCap, barPaddr: U64, barSize: U64, commonPaddr: U64, pagePaddr: U64, pageOffset: U64)

  datatype NotifyCap = NotifyCap(identity: Identity, bar: nat, offset: U32, length: U32, multiplier: U32)

  datatype NotifyRange = NotifyRange(capability: NotifyCap, barPaddr: U64, barSize: U64, capPaddr: U64)

  predicate IsBlk(id: Identity) {
    id.vendor == VENDOR && id.product == BLK_MODERN
  }

  /** `virtio_common_range_is_sane`. */
  predicate CommonSane(r: CommonRange) {
    && IsBlk(r.capability.identity)
    && r.capability.bar < BAR_COUNT
    && r.barPaddr != 0 && r.barSize != 0
    && r.commonPaddr >= r.barPaddr
    && Sub64(r.commonPaddr, r.barPaddr) == r.capability.offset
    && r.capability.offset <= r.barSize
    && r.capability.length <= r.barSize - r.capability.offset
    && And(r.pagePaddr, PAGE - 1) == 0
    && Sub64(r.commonPaddr, r.pagePaddr) == r.pageOffset
    && r.pageOffset <= PAGE && FEATURE_OFF + 4 <= PAGE - r.pageOffset
  }

  /** An accepted common range is the capability's window inside its BAR, and both
      feature words fall into the one page that is mapped for it. */
  lemma CommonContained(r: CommonRange)
    requires CommonSane(r)
    ensures r.commonPaddr == r.barPaddr + r.capability.offset
    ensures r.commonPaddr + r.capability.length <= r.barPaddr + r.barSize
    ensures r.pagePaddr % PAGE == 0 && r.pagePaddr + PAGE <= WRAP64
    ensures r.commonPaddr == r.pagePaddr + r.pageOffset
    ensures r.pagePaddr <= r.commonPaddr + FEATURE_SELECT_OFF
    ensures r.commonPaddr + FEATURE_OFF + 4 <= r.pagePaddr + PAGE
  {
    hide And, Pow2;
    PageMask(r.pagePaddr);
    PageBelowTop(r.pagePaddr);
    SubInPage(r.commonPaddr, r.pagePaddr, r.pageOffset);
  }

  lemma PageMask(p: U64)
    ensures And(p, PAGE - 1) == p % PAGE
    ensures And(p, Not64(PAGE - 1)) == p - p % PAGE
  {
    Pow2Values();
    AndLowMask(p, 12);
    AndNot64(p, 12);
    hide And;
    assert Not64(PAGE - 1) == WRAP64 - PAGE;
  }

  /** A wrapped difference of at most a page from a page start has not wrapped. */
  lemma SubInPage(a: U64, page: U64, offset: U64)
    requires Sub64(a, page) == offset && offset < PAGE && page + PAGE <= WRAP64
    ensures a == page + offset
  {
  }

  lemma PageBelowTop(p: U64)
    requires p % PAGE == 0
    ensures p + PAGE <= WRAP64
  {
  }

  /** Sanity alone does not keep the registers the staging functions use inside the
      page: the last register byte, at 0x37, is inside exactly when this holds. */
  predicate RegistersInPage(r: CommonRange) {
    r.pageOffset + COMMON_MIN_LENGTH <= PAGE
  }

  /** A sane range whose device status byte lies on the next page. */
  lemma SaneButOutOfPage()
    ensures exists r: CommonRange ::
              CommonSane(r) && r.capability.length >= COMMON_MIN_LENGTH
              && r.pageOffset + 0x14 >= PAGE && !RegistersInPage(r)
  {
    var cap := CommonCap(Identity(0, 0, VENDOR, BLK_MODERN), 0, 0xff8, 0x38);
    var r := CommonRange(cap, 0x10_0000, 0x2000, 0x10_0ff8, 0x10_0000, 0xff8);
    PageMask(0x10_0000);
    hide And;
    assert CommonSane(r);
  }

  /** `virtio_notify_range_is_sane`. */
  predicate NotifySane(r: NotifyRange) {
    && IsBlk(r.capability.identity)
    && r.capability.bar < BAR_COUNT
    && r.capability.length >= NOTIFY_MIN_LENGTH
    && r.capability.multiplier != 0
    && r.barPaddr != 0 && r.barSize != 0
    && r.capPaddr >= r.barPaddr
    && Sub64(r.capPaddr, r.barPaddr) == r.capability.offset
    && r.capability.offset <= r.barSize
    && r.capability.length <= r.barSize - r.capability.offset
  }

  lemma NotifyContained(r: NotifyRange)
    requires NotifySane(r)
    ensures r.capPaddr == r.barPaddr + r.capability.offset
    ensures r.capPaddr + r.capability.length <= r.barPaddr + r.barSize
  {
  }

  /** The tests the notify validator makes once a common range is known. */
  function NotifyRangeFor(cap: NotifyCap, common: CommonRange): Option<NotifyRange> {
    if || !IsBlk(cap.identity) || cap.identity.device >= 32 || cap.identity.function_ >= 8
       || cap.bar >= BAR_COUNT || cap.length < NOTIFY_MIN_LENGTH
       || And(cap.offset, 3) != 0 || And(cap.length, 3) != 0 || cap.multiplier == 0
       || cap.identity.device != common.capability.identity.device
       || cap.identity.function_ != common.capability.identity.function_
       || cap.bar != common.capability.bar
       || cap.offset > common.barSize || cap.length > common.barSize - cap.offset
       || common.barPaddr > MAX64 - cap.offset
    then None
    else
      var r := NotifyRange(cap, common.barPaddr, common.barSize, common.barPaddr + cap.offset);
      if NotifySane(r) then Some(r) else None
  }

  /** The closing sanity test of the notify validator never rejects: on a sane
      common range a capability is accepted exactly when it is a well-formed one of
      the same function and BAR whose window lies in the BAR. */
  lemma NotifyAccepted(cap: NotifyCap, common: CommonRange)
    requires CommonSane(common)
    ensures NotifyRangeFor(cap, common).Some? <==>
            && IsBlk(cap.identity) && cap.identity.device < 32 && cap.identity.function_ < 8
            && cap.identity.device == common.capability.identity.device
            && cap.identity.function_ == common.capability.identity.function_
            && cap.bar == common.capability.bar
            && cap.length >= NOTIFY_MIN_LENGTH && cap.multiplier != 0
            && cap.offset % 4 == 0 && cap.length % 4 == 0
            && cap.offset + cap.length <= common.barSize
            && common.barPaddr + cap.offset < WRAP64
    ensures NotifyRangeFor(cap, common).Some? ==> NotifySane(NotifyRangeFor(cap, common).value)
  {
    hide And, CommonSane;
    CommonBase(common);
    DwordMask(cap.offset);
    DwordMask(cap.length);
  }

  lemma CommonBase(r: CommonRange)
    requires CommonSane(r)
    ensures r.barPaddr != 0 && r.barSize != 0 && r.capability.bar < BAR_COUNT
  {
    hide And;
  }

  lemma DwordMask(n: nat)
    ensures And(n, 3) == n % 4
  {
    Pow2Values();
    AndLowMask(n, 2);
  }

  // ---------------------------------------------------------------- notification address

  /** Queue zero's notification address, by the source's overflow tests. */
  function NotificationAddress(r: NotifyRange, notifyOff: U16): Option<U64> {
    if notifyOff != 0 && r.capability.multiplier > MAX64 / notifyOff then None
    else
      var relative := notifyOff * r.capability.multiplier % WRAP64;
      if r.capPaddr > MAX64 - relative || relative > r.capability.length || 2 > r.capability.length - relative then None
      else Some(r.capPaddr + relative)
  }

  lemma OffsetProductSmall(notifyOff: U16, multiplier: U32)
    ensures 0 <= notifyOff * multiplier < 0x1_0000 * WRAP32
    ensures notifyOff != 0 ==> multiplier <= MAX64 / notifyOff
  {
    assert notifyOff * multiplier <= notifyOff * WRAP32 by {
      assert notifyOff * (WRAP32 - multiplier) >= 0;
    }
    if notifyOff != 0 {
      DivLowerBound(MAX64, notifyOff, multiplier);
    }
  }

  lemma DivLowerBound(x: nat, a: nat, m: nat)
    requires a > 0 && a * m <= x
    ensures m <= x / a
  {
    var d := m - x / a;
    assert d * a <= x % a by {
      assert x == a * (x / a) + x % a;
      assert d * a == a * m - a * (x / a);
    }
    MulAtLeast(d, a);
  }

  /** An address is accepted exactly when the two bytes at capability base plus
      offset times multiplier lie inside the notify capability and below 2^64; the
      product itself can never overflow. */
  lemma NotificationAccepted(r: NotifyRange, notifyOff: U16)
    ensures var p := r.capPaddr + notifyOff * r.capability.multiplier;
            NotificationAddress(r, notifyOff) ==
            if p <= MAX64 && p + 2 <= r.capPaddr + r.capability.length then Some(p) else None
  {
    OffsetProductSmall(notifyOff, r.capability.multiplier);
  }

  /** The page around an address and the offset into it, refused unless the whole
      page lies inside the notify capability. */
  function NotificationPage(r: NotifyRange, paddr: U64): Option<(U64, U64)> {
    var page := And(paddr, Not64(PAGE - 1));
    var offset := Sub64(paddr, page);
    if r.capability.length < PAGE || page < r.capPaddr || offset > PAGE - 2
       || page - r.capPaddr > r.capability.length - PAGE
    then None
    else Some((page, offset))
  }

  /** An accepted page is the page of the address, holds both notification bytes,
      and lies wholly inside the capability, without wrapping past 2^64. */
  lemma NotificationPageContained(r: NotifyRange, paddr: U64)
    ensures var page, offset := paddr - paddr % PAGE, paddr % PAGE;
            NotificationPage(r, paddr) ==
            if r.capPaddr <= page && page + PAGE <= r.capPaddr + r.capability.length && offset + 2 <= PAGE
            then Some((page, offset)) else None
    ensures paddr - paddr % PAGE + PAGE <= WRAP64
  {
    hide And;
    PageMask(paddr);
    PageBelowTop(paddr - paddr % PAGE);
  }
}
