# GUI2 simple drawer: string helpers and the drawing panel, in Dafny

This project models the two pieces of logic in a small Swing paint program.

- `utils.FileIO`, the string helpers only (module `FileIO`, file `file_io.dfy`):
  - `getExtention(filename)` is modelled as `GetExtension`. The source's spelling is normalised. The result is the text after the last dot. It is `None` (Java `null`) when there is no dot, when the last dot is the first character, or when nothing follows the last dot.
  - `object2String(sep, objects...)` is modelled as the method `ObjectToString`. It has the source's loop, which appends each value and a separator, then appends the last value. It is proved equal to the functional `Join`. With no values, the source indexes `objects[-1]`; the model returns `IndexOutOfBounds(-1)`. `Split` is an independent inverse of `Join`, used to prove a round trip.
- `simpleDrawer.DrawPanel` (module `SimpleDrawer`, file `simple_drawer.dfy`):
  - The class `DrawPanel` has the source's fields, plus the panel's own foreground colour. That colour is `None` after `setForeground(null)`, in which case `getForeground()` returns the inherited colour `inheritedForeground`. The source's fields are: `point` (the nullable last position, as `Option<Point>`), `stroke` (the line width), `eraser`, `eraserStroke`, and the image. The image is an `array2<Color>` the size of the panel, filled with the background colour. `drawn` is the ordered log of the segments (from, to, colour, width) drawn into that image.
  - Every handler and setter also states its effect as `State() == Step(old(State()), e)`. `Step` and `Run` are a value-level model of the same state machine. The lemmas about whole event sequences are stated over `Step` and `Run`: the invariant is kept, old segments never change, and a stroke draws a polyline.
- `Wrappers` (file `wrappers.dfy`) holds the `Option` datatype.

Two facts of the code that the model makes explicit:
- The image is not a fixed size. `initializeImage` asks the panel for its preferred size, which depends on the layout the frame installs. So the size is a constructor parameter.
- `initialize` leaves the eraser flag, the last point and the colour unchanged.

## Model

| member | source | states |
|---|---|---|
| `FileIO.LastIndexOf` | src/utils/FileIO.java:178 | Returns -1 exactly when the character does not occur. Otherwise it returns an index holding the character, with no occurrence after it. |
| `FileIO.GetExtension` | src/utils/FileIO.java:176-186 | A returned extension is non-empty and contains no dot. |
| `FileIO.GetExtensionSound` | src/utils/FileIO.java:178-180 | If an extension is returned, the name is a non-empty prefix, a dot and the extension. |
| `FileIO.GetExtensionComplete` | src/utils/FileIO.java:176-186 | If the name is a non-empty prefix, a dot and a non-empty dot-free `ext`, the result is `ext`. |
| `FileIO.GetExtensionNoneExact` | src/utils/FileIO.java:176-186 | The result is `null` if and only if no split into prefix, dot and extension exists. |
| `FileIO.GetExtensionNoDot` | src/utils/FileIO.java:177-179 | A name without a dot gives `null`. |
| `FileIO.GetExtensionLeadingDot` | src/utils/FileIO.java:178-179 | A name whose only dot is at index 0 (".hidden") gives `null`. |
| `FileIO.GetExtensionTrailingDot` | src/utils/FileIO.java:180-183 | A name ending with a dot gives `null`. |
| `FileIO.GetExtensionExamples` | src/utils/FileIO.java:176-186 | "a.b.png" gives "png". "noext", ".hidden" and "image." give `null`. |
| `FileIO.Join` | src/utils/FileIO.java:160-168 | The joined length is the total length of the values plus n-1 separators. |
| `FileIO.JoinSingle` | src/utils/FileIO.java:163-166 | One value is returned unchanged. |
| `FileIO.JoinSnoc` | src/utils/FileIO.java:163-166 | Adding a value adds exactly one separator before it and none after it. |
| `FileIO.ObjectToString` | src/utils/FileIO.java:160-168 | With n >= 1 values the loop returns `s0 + sep + ... + sep + s(n-1)`. It reports the out-of-bounds index -1 if and only if there are no values. |
| `FileIO.SplitJoin` | src/utils/FileIO.java:160-168 | If no value contains the separator, cutting the joined text at each separator gives the values back. |
| `FileIO.JoinExample` | src/utils/FileIO.java:160-168 | Joining "a", "b", "c" with ',' gives "a,b,c". |
| `SimpleDrawer.PenByMode` | src/simpleDrawer/DrawPanel.java:115-123 | In eraser mode, a segment gets the background colour and width 20, whatever the configured width. Otherwise it gets the foreground colour and the current width. |
| `SimpleDrawer.StepKeepsInv` | src/simpleDrawer/DrawPanel.java:97-103 | Every call keeps these true: width >= 1, eraser width 20, every drawn segment at least 1 wide. |
| `SimpleDrawer.RunKeepsInv` | src/simpleDrawer/DrawPanel.java:44-47 | Any sequence of calls keeps that invariant. |
| `SimpleDrawer.StepExtendsDrawn` | src/simpleDrawer/DrawPanel.java:115-126 | A call that does not replace the image keeps the drawn segments as a prefix and adds at most one. |
| `SimpleDrawer.RunKeepsDrawn` | src/simpleDrawer/DrawPanel.java:97-126 | Width, eraser and colour changes, and later drawing, never alter a segment already drawn until the image is replaced. |
| `SimpleDrawer.ChainShape` | src/simpleDrawer/DrawPanel.java:174-178 | Segment i of a stroke ends at point i and starts where segment i-1 ended. The first segment starts at the press point. |
| `SimpleDrawer.RunDrags` | src/simpleDrawer/DrawPanel.java:174-178 | k drags while drawing append exactly the k segments of the polyline. The last drag position becomes the last point. |
| `SimpleDrawer.StrokeDrawsPolyline` | src/simpleDrawer/DrawPanel.java:149-180 | A press, k drags and a release draw exactly k+1 segments: the polyline from the press point to the release point. The last segment ends at the release point, and no last point remains. |
| `SimpleDrawer.IdleIgnoresDragAndRelease` | src/simpleDrawer/DrawPanel.java:159-180 | With no last point, drag and release leave the whole state unchanged. |
| `SimpleDrawer.ClampedWidthBeforeNextSegment` | src/simpleDrawer/DrawPanel.java:97-103 | After setting a width below 1, the next non-eraser segment has width 1. |
| `SimpleDrawer.CancelledColorUsesInherited` | src/simpleDrawer/SimpleDrawerMain.java:160-164 | After `setForeground(null)`, the next non-eraser segment is drawn in the inherited foreground colour. |
| `SimpleDrawer.FilledImage` | src/simpleDrawer/DrawPanel.java:65-69 | The new image has the requested size, and every pixel has the fill colour. |
| `SimpleDrawer.DrawPanel.constructor` | src/simpleDrawer/DrawPanel.java:33-48 | After construction and `initialize()`: white background, no last point, width 1, eraser off, eraser width 20, nothing drawn, every pixel white. |
| `SimpleDrawer.DrawPanel.Initialize` | src/simpleDrawer/DrawPanel.java:40-48 | Gives a new image filled with the background and resets the widths to 1 and 20. All other fields are kept. |
| `SimpleDrawer.DrawPanel.InitializeImage` | src/simpleDrawer/DrawPanel.java:62-70 | Gives a new image in which every pixel is the background colour. Earlier segments are discarded. |
| `SimpleDrawer.DrawPanel.SetLineWidth` | src/simpleDrawer/DrawPanel.java:97-103 | The width becomes max(w, 1). Nothing else changes. |
| `SimpleDrawer.DrawPanel.SetEraser` | src/simpleDrawer/DrawPanel.java:105-107 | Sets the eraser flag. Nothing else changes. |
| `SimpleDrawer.DrawPanel.SetForeground` | src/simpleDrawer/SimpleDrawerMain.java:160-164 | Sets the panel's own foreground, which may be `null` when the colour dialog was cancelled. The colour later segments use is then the chosen colour or, for `null`, the inherited one. Nothing else changes. |
| `SimpleDrawer.DrawPanel.LineSegment` | src/simpleDrawer/DrawPanel.java:115-126 | Appends exactly one segment, from the last point to (x, y), drawn with the mode's pen. |
| `SimpleDrawer.DrawPanel.MousePressed` | src/simpleDrawer/DrawPanel.java:149-152 | The press position becomes the last point. Nothing is drawn. |
| `SimpleDrawer.DrawPanel.MouseReleased` | src/simpleDrawer/DrawPanel.java:160-166 | With a last point: one segment to the release position, then the last point is cleared. Without one: nothing changes. |
| `SimpleDrawer.DrawPanel.MouseDragged` | src/simpleDrawer/DrawPanel.java:174-180 | With a last point: one segment to the drag position, which becomes the last point. Without one: nothing changes. |

## Left out

- Pixel rasterization (`BasicStroke` round caps and joins, `Graphics2D.drawLine`) is a library call. A drawn segment is recorded in `drawn`, and `image` keeps the pixels as `initializeImage` filled them.
- The stroke width is kept as an integer. The source converts it to a `float`, which is exact for every width the slider can produce.
- `saveImage` and the image encoding (`ImageIO.write`) are file I/O and are not modelled. The same holds for `paintComponent` and `repaint`, the writability checks and dialogs of `fileChooser.FileUtilGUI`, and the rest of the frame's Swing wiring.
- Listener registration in `initialize` is left out. Handlers are sequential method calls, and Swing's event queue and threading are not modelled. Because of this, one consequence is missing: calling `initialize` twice registers the listeners twice, and each event is then handled twice.
- `BufferedImage` throws on a non-positive width or height. The model allows a zero-sized image instead.
- `stroke` and `eraserStroke` are `null` until `initialize` runs (`setLineWidth` also sets `stroke`). The constructor models creation together with `initialize`, as the application's frame does, so the state before `initialize` does not occur.
- Java strings are sequences of UTF-16 code units and may be `null`; Dafny strings are sequences of Unicode scalar values and cannot be. `getExtention(null)` throws a `NullPointerException`, which is not modelled; the only caller passes `File.getName()`, which is never `null`. `Join`'s length ensures counts scalar values, not Java's `length()` in UTF-16 code units.
- In `object2String`, each value's string form (`String.valueOf`, which gives "null" for a null element) is the caller's input. A `null` varargs array is not modelled.
- The buffered stream functions of `utils.FileIO` are not modelled: `openReader`, `openWriter`, `writeVars`, `writeCSV`, `writeSSV` and `readFromReader` are file I/O. `readVars`, `readCSV` and `readSSV` also split with Java regular expressions.
