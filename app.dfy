/** The state of `MandelbrotApp` (src/main.rs:38-93): the displayed buffer,
    the zoom factor and the selected gradient, and the transitions that
    `default` and `update` make on them. The egui widgets themselves are not
    modelled; the user's input to them is a parameter of `Update`. */
module App {
  import opened Colors
  import opened Render

  const Width: nat := 800
  const Height: nat := 800
  const MaxIter: nat := 100

  /** What the zoom slider reports in one frame: either it was not moved,
      or it was moved to a new zoom. */
  datatype SliderInput = Unchanged | Moved(zoom: real)

  /** The user's input to the controls in one call of `update`: the zoom
      slider and the three gradient radio buttons, in the order they are
      laid out. */
  datatype FrameInput = FrameInput(slider: SliderInput, rainbowClicked: bool, purpleClicked: bool, greenClicked: bool)

  /** The slider's new value, if any, is a positive zoom. */
  predicate ValidInput(input: FrameInput) {
    input.slider.Moved? ==> input.slider.zoom > 0.0
  }

  /** The gradient that ends up selected after the radio buttons of one frame
      are handled in their order: the last one clicked wins. */
  function SelectedAfter(input: FrameInput, current: Gradient): Gradient {
    if input.greenClicked then Green
    else if input.purpleClicked then Purple
    else if input.rainbowClicked then Rainbow
    else current
  }

  class MandelbrotApp {
    var pixels: seq<Byte>
    var zoom: real
    var selectedGradient: Gradient

    /** The displayed buffer is always the image of the current zoom and
        gradient. */
    ghost predicate Valid()
      reads this
    {
      zoom > 0.0 && pixels == Image(Width, Height, MaxIter, zoom, selectedGradient)
    }

    /** `MandelbrotApp::default`: zoom 1, the rainbow gradient, and the
        image generated for those. */
    constructor ()
      ensures Valid()
      ensures zoom == 1.0 && selectedGradient == Rainbow
    {
      var p := GenerateMandelbrot(Width, Height, MaxIter, 1.0, Rainbow);
      pixels := p;
      zoom := 1.0;
      selectedGradient := Rainbow;
    }

    /** The slider sets the zoom and the image is regenerated. */
    method SetZoom(newZoom: real)
      requires Valid() && newZoom > 0.0
      modifies this
      ensures Valid()
      ensures zoom == newZoom && selectedGradient == old(selectedGradient)
    {
      zoom := newZoom;
      pixels := GenerateMandelbrot(Width, Height, MaxIter, zoom, selectedGradient);
    }

    /** A radio button selects its gradient and the image is regenerated. */
    method SelectGradient(g: Gradient)
      requires Valid()
      modifies this
      ensures Valid()
      ensures selectedGradient == g && zoom == old(zoom)
    {
      selectedGradient := g;
      pixels := GenerateMandelbrot(Width, Height, MaxIter, zoom, selectedGradient);
    }

    /** One call of `update`: the slider first, then the rainbow, purple and
        green buttons; each change regenerates the image. */
    method Update(input: FrameInput)
      requires Valid() && ValidInput(input)
      modifies this
      ensures Valid()
      ensures zoom == (if input.slider.Moved? then input.slider.zoom else old(zoom))
      ensures selectedGradient == SelectedAfter(input, old(selectedGradient))
    {
      if input.slider.Moved? {
        SetZoom(input.slider.zoom);
      }
      if input.rainbowClicked {
        SelectGradient(Rainbow);
      }
      if input.purpleClicked {
        SelectGradient(Purple);
      }
      if input.greenClicked {
        SelectGradient(Green);
      }
    }
  }
}
