/** The site layout's mobile navigation: a menu button flips whether the
    mobile link list is open. */
module Layout {

  class SiteLayout {
    var isMobileMenuOpen: bool

    /** The menu starts closed. */
    constructor ()
      ensures !isMobileMenuOpen
    {
      isMobileMenuOpen := false;
    }

    /** `toggleMobileMenu`: negate the flag, so toggling twice restores it. */
    method ToggleMobileMenu()
      modifies this
      ensures isMobileMenuOpen == !old(isMobileMenuOpen)
    {
      isMobileMenuOpen := !isMobileMenuOpen;
    }

    /** The display class of the mobile link list. */
    function MobileNavDisplay(): (display: string)
      reads this
      ensures display == "block" <==> isMobileMenuOpen
      ensures display == "hidden" <==> !isMobileMenuOpen
    {
      if isMobileMenuOpen then "block" else "hidden"
    }
  }
}
