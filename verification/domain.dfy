/**
 * Domain attributes (dpa_domain.c): which threading level and data
 * progress mode a domain runs with, chosen from the fi_info it is opened
 * with. The same choice is what fi_getinfo offers (see Info).
 */
module Domain {
  import opened Fabric

  /** dpa_fid_domain: the fabric it belongs to and the attributes it settled on. */
  datatype Domain = Domain(fabric: nat, mrMode: MrMode, controlProgress: Progress,
                           dataProgress: Progress, threading: Threading)

  /** Data progress: automatic only when automatic was asked for, manual otherwise. */
  function SelectDataProgress(hint: Progress): (p: Progress)
    ensures p == ProgressAuto <==> hint == ProgressAuto
    ensures p == ProgressAuto || p == ProgressManual
  {
    if hint == ProgressAuto then ProgressAuto else ProgressManual
  }

  /**
   * Threading: the requested level when one is set and it is no stronger
   * than FI_THREAD_COMPLETION; FI_THREAD_COMPLETION otherwise.
   */
  function SelectThreading(hint: Threading): (t: Threading)
    ensures t != ThreadUnspec && t.Level() <= ThreadCompletion.Level()
    ensures t == hint || t == ThreadCompletion
    ensures hint != ThreadUnspec && hint.Level() <= ThreadCompletion.Level() ==> t == hint
  {
    if hint != ThreadUnspec && hint.Level() < ThreadCompletion.Level() then hint else ThreadCompletion
  }

  /** Choosing again from a level already chosen changes nothing. */
  lemma SelectIdempotent(hint: Threading, progress: Progress)
    ensures SelectThreading(SelectThreading(hint)) == SelectThreading(hint)
    ensures SelectDataProgress(SelectDataProgress(progress)) == SelectDataProgress(progress)
  {
  }

  /** A domain whose attributes honour the requested ones, with the fixed choices of the provider. */
  predicate Honours(d: Domain, attr: Option<DomainAttr>)
  {
    && d.controlProgress == ProgressAuto && d.mrMode == MrScalable
    && (d.dataProgress == ProgressAuto <==> attr.Some? && attr.value.dataProgress == ProgressAuto)
    && d.dataProgress in {ProgressAuto, ProgressManual}
    && (if attr.Some? && attr.value.threading != ThreadUnspec && attr.value.threading.Level() <= ThreadCompletion.Level()
        then d.threading == attr.value.threading
        else d.threading == ThreadCompletion)
  }

  /**
   * dpa_domain_open: ENODATA for a NULL info or a request for basic
   * memory registration; otherwise a domain with automatic control
   * progress, scalable registration and the selected data progress and
   * threading.
   */
  function Open(fabric: nat, info: Option<FiInfo>): (r: Result<Domain>)
    ensures r.Failure? ==> r.error == ENODATA
    ensures r.Success? <==> info.Some? && (info.value.domainAttr.None? || info.value.domainAttr.value.mrMode != MrBasic)
    ensures r.Success? ==> r.value.fabric == fabric && Honours(r.value, info.value.domainAttr)
  {
    if info.None? then Failure(ENODATA)
    else
      var attr := info.value.domainAttr;
      if attr.Some? && attr.value.mrMode == MrBasic then Failure(ENODATA)
      else if attr.None? then Success(Domain(fabric, MrScalable, ProgressAuto, ProgressManual, ThreadCompletion))
      else Success(Domain(fabric, MrScalable, ProgressAuto, SelectDataProgress(attr.value.dataProgress),
                          SelectThreading(attr.value.threading)))
  }
}
