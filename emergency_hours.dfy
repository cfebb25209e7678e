/** The after-hours emergency banner of script.js:633-725. The hour is the
    local hour of the day (`new Date().getHours()`), taken as an input. */
module EmergencyHours {

  /** Before 7:00 or from 19:00 on. */
  predicate IsAfterHours(hour: int) {
    hour < 7 || hour > 18
  }

  /** Over the hours a clock reports, the banner is never due from 7:00
      through 18:59, and always due otherwise. */
  lemma BusinessHours(hour: int)
    requires 0 <= hour <= 23
    ensures !IsAfterHours(hour) <==> 7 <= hour <= 18
  {
  }

  /** The page elements `handleEmergencyService` adds or changes. */
  class Page {
    const hasHeader: bool
    const hasHero: bool
    /** How many banners have been inserted after the header. */
    var banners: nat
    /** Whether the banner's style sheet has been appended. */
    var styled: bool
    /** Whether the hero's top padding has been enlarged for the banner. */
    var heroPadded: bool

    constructor (hasHeader: bool, hasHero: bool)
      ensures this.hasHeader == hasHeader && this.hasHero == hasHero
      ensures banners == 0 && !styled && !heroPadded
    {
      this.hasHeader := hasHeader;
      this.hasHero := hasHero;
      banners := 0;
      styled := false;
      heroPadded := false;
    }

    /** `handleEmergencyService` at `hour`: after hours, on a page with a
        header, insert one more banner, add its styles and pad the hero if
        there is one; otherwise change nothing. */
    method HandleEmergencyService(hour: int)
      modifies this
      ensures IsAfterHours(hour) && hasHeader ==>
        banners == old(banners) + 1 && styled && heroPadded == (old(heroPadded) || hasHero)
      ensures !(IsAfterHours(hour) && hasHeader) ==>
        banners == old(banners) && styled == old(styled) && heroPadded == old(heroPadded)
    {
      var isAfterHours := IsAfterHours(hour);
      if isAfterHours {
        if hasHeader {
          banners := banners + 1;
          styled := true;
          if hasHero {
            heroPadded := true;
          }
        }
      }
    }
  }
}
