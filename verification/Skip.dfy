/**
  What runs a listing of current versions: it turns streaks of skipped entries into jumps.
 */
module SkipRanges {
  import opened Strings
  import opened Keys
  import opened Paging
  import opened MasterListing
  import opened DelimiterMasters

  const MAX_STREAK_LENGTH := 100

  datatype Action = Continue | ListingEnd | SkipRange(newRange: Str)

  /** Turns streaks of skipped entries into jumps. */
  class Skip {
    const extension: DelimiterMaster
    const gteParams: Option<Str>
    var streakLength: nat

    constructor (extension: DelimiterMaster, gteParams: Option<Str>)
      ensures this.extension == extension && this.gteParams == gteParams && streakLength == 0
    {
      this.extension := extension;
      this.gteParams := gteParams;
      this.streakLength := 0;
    }

    /**
      Filters an entry.  The listing goes on from a new range only after an unbroken streak
      of skipped entries, and never from the range it was started from.  Reading on from the
      first of all entries in the new range loses nothing, and lists nothing again, if the
      jump is safe.
     */
    method Filter(e: Entry, now: int, ghost p: nat) returns (action: Action, ghost filtered: FilterResult)
      requires p < |extension.stream| && e == extension.stream[p] && extension.Valid(p)
      modifies this, extension
      ensures if filtered.FILTER_END? then extension.Done() else extension.Valid(p + 1)
      ensures old(extension.state).NotSkipping? || old(extension.state).SkippingVersions? ==>
                extension.Handled(e, filtered)
      ensures old(extension.state).SkippingGap? ==> extension.HandledInGap(e, filtered)
      ensures if filtered.FILTER_END? then
                action == ListingEnd && streakLength == old(streakLength)
              else
                var skipTo := extension.SkippingBase();
                var streak := old(streakLength) + 1;
                if filtered.FILTER_ACCEPT? || skipTo == None then
                  action == Continue && streakLength == 0
                else if streak < MAX_STREAK_LENGTH then
                  action == Continue && streakLength == streak
                else if skipTo == gteParams then
                  action == Continue && streakLength == 1
                else
                  action == SkipRange(skipTo.value) && streakLength == streak
      ensures action.SkipRange? && extension.JumpIsSafe(e.key) ==>
                forall q :: extension.IsFirstFrom(q, action.newRange) ==> extension.Valid(q)
    {
      hide Live;
      hide Group;
      hide Lt;
      hide WellFormed;
      var filteringResult := extension.Filter(e, now, p);
      filtered := filteringResult;
      if filteringResult.FILTER_END? {
        action := ListingEnd;
        return;
      }
      var skipTo := extension.SkippingBase();
      action := Continue;
      if filteringResult.FILTER_SKIP? && skipTo.Some? {
        streakLength := streakLength + 1;
        if streakLength >= MAX_STREAK_LENGTH {
          if skipTo == gteParams {
            streakLength := 1;
          } else {
            action := SkipRange(skipTo.value);
            if extension.JumpIsSafe(e.key) {
              forall q | extension.IsFirstFrom(q, skipTo.value)
                ensures extension.Valid(q)
              {
                extension.JumpIsSound(p + 1, q);
              }
            }
          }
        }
      } else {
        streakLength := 0;
      }
    }
  }
}
