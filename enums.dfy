/** The gesture labels that flow from the per-frame classifier through the
    debounce window to the caller. The enumeration module of the program is
    not part of this model; these are the two members the detector uses. */
module Enums {

  datatype Gesture = NoGesture | LeftWristUp

}
